// The dentry cache as a value: the attached dentries by inode id. What the
// mutable dentries of LocalMemMeta represent, and what is proved about them.
module DentryTree {
  import opened Basics

  type InodeID = nat

  const ROOT: InodeID := 1

  datatype Node = Node(
    name: string, parent: InodeID, mode: Mode, size: nat,
    synced: bool, ttl: Time, complete: bool, children: map<string, InodeID>)

  // `next` is the id the allocator hands out next.
  datatype Cache = Cache(nodes: map<InodeID, Node>, next: InodeID)

  // ---- The tree invariant ---------------------------------------------------

  ghost predicate Placed(c: Cache, r: InodeID)
    requires r in c.nodes
  {
    var n := c.nodes[r];
    && ROOT <= r < c.next
    && (r == ROOT ==> n.parent == 0)
    && (r != ROOT ==>
          && n.parent < r && n.parent in c.nodes && ValidName(n.name)
          && n.name in c.nodes[n.parent].children && c.nodes[n.parent].children[n.name] == r)
  }

  ghost predicate ChildrenPlaced(c: Cache, r: InodeID)
    requires r in c.nodes
  {
    && (c.nodes[r].children != map[] ==> IsDirMode(c.nodes[r].mode))
    && forall k :: k in c.nodes[r].children ==>
                     var i := c.nodes[r].children[k];
                     i in c.nodes && i != ROOT && c.nodes[i].parent == r && c.nodes[i].name == k
  }

  // The root is a directory; parent pointers and child keys agree; only
  // directories have children; ids grow downwards, so there is no cycle.
  ghost predicate Tree(c: Cache) {
    && ROOT in c.nodes && IsDirMode(c.nodes[ROOT].mode)
    && (forall r {:trigger Placed(c, r)} :: r in c.nodes ==> Placed(c, r))
    && (forall r {:trigger ChildrenPlaced(c, r)} :: r in c.nodes ==> ChildrenPlaced(c, r))
  }

  lemma IdsBelowNext(c: Cache)
    requires Tree(c)
    ensures forall r :: r in c.nodes ==> ROOT <= r < c.next
  {
    forall r | r in c.nodes ensures ROOT <= r < c.next { assert Placed(c, r); }
  }

  // ---- Ancestors, walks and paths ----------------------------------------------

  ghost predicate Below(c: Cache, x: InodeID, r: InodeID)
    decreases r
  {
    r == x || (r in c.nodes && c.nodes[r].parent < r && Below(c, x, c.nodes[r].parent))
  }

  // get_child along a list of names.
  function Walk(c: Cache, r: InodeID, q: seq<string>): Option<InodeID>
    decreases |q|
  {
    if q == [] then Some(r)
    else if r in c.nodes && q[0] in c.nodes[r].children then Walk(c, c.nodes[r].children[q[0]], q[1..])
    else None
  }

  // The names from the root down to a dentry.
  ghost function Names(c: Cache, r: InodeID): seq<string>
    decreases r
  {
    if r == ROOT || r !in c.nodes || c.nodes[r].parent >= r then []
    else Names(c, c.nodes[r].parent) + [c.nodes[r].name]
  }

  lemma {:induction false} BelowOrder(c: Cache, x: InodeID, r: InodeID)
    requires Below(c, x, r)
    ensures x <= r
    decreases r
  {
    if r != x { BelowOrder(c, x, c.nodes[r].parent); }
  }

  lemma {:induction false} BelowTransitive(c: Cache, x: InodeID, y: InodeID, r: InodeID)
    requires Below(c, x, y) && Below(c, y, r)
    ensures Below(c, x, r)
    decreases r
  {
    if r != y { BelowTransitive(c, x, y, c.nodes[r].parent); }
  }

  lemma {:induction false} AllBelowRoot(c: Cache, r: InodeID)
    requires Tree(c) && r in c.nodes
    ensures Below(c, ROOT, r)
    decreases r
  {
    assert Placed(c, r);
    if r != ROOT { AllBelowRoot(c, c.nodes[r].parent); }
  }

  lemma {:induction false} WalkAppend(c: Cache, r: InodeID, q: seq<string>, k: string)
    ensures Walk(c, r, q + [k]) == if Walk(c, r, q).Some? then Walk(c, Walk(c, r, q).value, [k]) else None
    decreases |q|
  {
    if q == [] {
      assert q + [k] == [k];
    } else if r in c.nodes && q[0] in c.nodes[r].children {
      assert (q + [k])[1..] == q[1..] + [k];
      WalkAppend(c, c.nodes[r].children[q[0]], q[1..], k);
    }
  }

  // Following its own names from the root leads to the dentry ...
  lemma {:induction false} WalkOfNames(c: Cache, r: InodeID)
    requires Tree(c) && r in c.nodes
    ensures Walk(c, ROOT, Names(c, r)) == Some(r)
    decreases r
  {
    assert Placed(c, r);
    if r != ROOT {
      var p, k := c.nodes[r].parent, c.nodes[r].name;
      WalkOfNames(c, p);
      WalkAppend(c, ROOT, Names(c, p), k);
      assert Walk(c, p, [k]) == Walk(c, r, []);
    }
  }

  lemma ChildNames(c: Cache, a: InodeID, k: string)
    requires Tree(c) && a in c.nodes && k in c.nodes[a].children
    ensures var i := c.nodes[a].children[k];
            && i in c.nodes && Placed(c, i) && c.nodes[i].parent == a && c.nodes[i].name == k
            && Names(c, i) == Names(c, a) + [k] && Below(c, a, i) && a < i
  {
    assert ChildrenPlaced(c, a);
    assert Placed(c, c.nodes[a].children[k]);
  }

  // ... and whatever a walk reaches has exactly the names that were walked.
  lemma {:induction false} NamesOfWalk(c: Cache, a: InodeID, q: seq<string>, names: seq<string>)
    requires Tree(c) && a in c.nodes && Walk(c, a, q).Some? && names == Names(c, a)
    ensures Names(c, Walk(c, a, q).value) == names + q
    decreases |q|
  {
    if q == [] {
      assert names + q == names;
    } else {
      ChildNames(c, a, q[0]);
      NamesOfWalk(c, c.nodes[a].children[q[0]], q[1..], names + [q[0]]);
      assert names + [q[0]] + q[1..] == names + q;
    }
  }

  lemma {:induction false} WalkIsBelow(c: Cache, a: InodeID, q: seq<string>)
    requires Tree(c) && a in c.nodes && Walk(c, a, q).Some?
    ensures Walk(c, a, q).value in c.nodes && Below(c, a, Walk(c, a, q).value)
    decreases |q|
  {
    if q != [] {
      ChildNames(c, a, q[0]);
      WalkIsBelow(c, c.nodes[a].children[q[0]], q[1..]);
      BelowTransitive(c, a, c.nodes[a].children[q[0]], Walk(c, a, q).value);
    }
  }

  lemma NamesInjective(c: Cache, r: InodeID, t: InodeID)
    requires Tree(c) && r in c.nodes && t in c.nodes && Names(c, r) == Names(c, t)
    ensures r == t
  {
    WalkOfNames(c, r);
    WalkOfNames(c, t);
  }

  // A child's siblings and ancestors lie outside the child's subtree.
  lemma ChildSubtrees(c: Cache, p: InodeID, x: InodeID, y: InodeID)
    requires Tree(c) && p in c.nodes && x in c.nodes && y in c.nodes
    requires c.nodes[x].parent == p && c.nodes[y].parent == p && x != y
    ensures !Below(c, x, p) && !Below(c, x, y)
  {
    assert Placed(c, x) && Placed(c, y);
    if Below(c, x, p) { BelowOrder(c, x, p); }
  }

  ghost predicate ValidNames(ns: seq<string>) {
    forall n :: n in ns ==> ValidName(n)
  }

  lemma {:induction false} NamesValid(c: Cache, r: InodeID)
    requires Tree(c) && r in c.nodes
    ensures ValidNames(Names(c, r))
    decreases r
  {
    assert Placed(c, r);
    if r != ROOT { NamesValid(c, c.nodes[r].parent); }
  }

  // Ancestors are the prefixes of a dentry's names.
  lemma {:induction false} BelowIsPrefix(c: Cache, x: InodeID, r: InodeID)
    requires Tree(c) && x in c.nodes && r in c.nodes
    ensures Below(c, x, r) <==> Names(c, x) <= Names(c, r)
    decreases r
  {
    assert Placed(c, r);
    if r == x {
    } else if r == ROOT {
      IdsBelowNext(c);
      if Names(c, x) <= [] { NamesInjective(c, x, r); }
    } else {
      var p := c.nodes[r].parent;
      BelowIsPrefix(c, x, p);
      if Names(c, x) <= Names(c, r) && !(Names(c, x) <= Names(c, p)) {
        assert Names(c, x) == Names(c, r);
        NamesInjective(c, x, r);
      }
    }
  }

  // ---- Changes that keep the shape -----------------------------------------------

  ghost predicate SamePlace(m: Node, n: Node) {
    m.name == n.name && m.parent == n.parent && m.children == n.children
  }

  ghost predicate SameShape(c: Cache, d: Cache) {
    && c.nodes.Keys == d.nodes.Keys
    && forall r :: r in c.nodes ==> SamePlace(c.nodes[r], d.nodes[r])
  }

  lemma {:induction false} ShapeWalk(c: Cache, d: Cache, r: InodeID, q: seq<string>)
    requires SameShape(c, d)
    ensures Walk(c, r, q) == Walk(d, r, q)
    decreases |q|
  {
    if q != [] && r in c.nodes && q[0] in c.nodes[r].children {
      ShapeWalk(c, d, c.nodes[r].children[q[0]], q[1..]);
    }
  }

  lemma {:induction false} ShapeNames(c: Cache, d: Cache, x: InodeID, r: InodeID)
    requires SameShape(c, d)
    ensures Names(c, r) == Names(d, r) && Below(c, x, r) == Below(d, x, r)
    decreases r
  {
    if r in c.nodes && c.nodes[r].parent < r {
      ShapeNames(c, d, x, c.nodes[r].parent);
    }
  }

  function SetNode(c: Cache, r: InodeID, n: Node): Cache {
    c.(nodes := c.nodes[r := n])
  }

  lemma SetTwice(c: Cache, r: InodeID, m: Node, n: Node)
    ensures SetNode(SetNode(c, r, m), r, n) == SetNode(c, r, n)
  {
    assert SetNode(SetNode(c, r, m), r, n).nodes == SetNode(c, r, n).nodes;
  }

  // The kind may change, but for a directory that is the root or has children.
  ghost predicate MayTake(c: Cache, r: InodeID, mode: Mode)
    requires r in c.nodes
  {
    IsDirMode(mode) == IsDirMode(c.nodes[r].mode) || IsDirMode(mode) || (r != ROOT && c.nodes[r].children == map[])
  }

  lemma SetNodeTree(c: Cache, r: InodeID, n: Node)
    requires Tree(c) && r in c.nodes && SamePlace(c.nodes[r], n) && MayTake(c, r, n.mode)
    ensures Tree(SetNode(c, r, n)) && SameShape(c, SetNode(c, r, n))
  {
    var d := SetNode(c, r, n);
    assert SameShape(c, d);
    forall x | x in d.nodes ensures Placed(d, x) && ChildrenPlaced(d, x) {
      assert Placed(c, x) && ChildrenPlaced(c, x);
    }
  }

  // ---- Attaching and detaching ---------------------------------------------------

  function NewNode(name: string, parent: InodeID, mode: Mode, size: nat): Node {
    Node(name, parent, mode, size, false, 0, false, map[])
  }

  // A mount starts with the root alone.
  function ColdCache(): Cache {
    Cache(map[ROOT := NewNode("", 0, S_IFDIR | 0x1F6, 0)], ROOT + 1)
  }

  lemma ColdTree()
    ensures Tree(ColdCache())
  {
    var c := ColdCache();
    assert Placed(c, ROOT) && ChildrenPlaced(c, ROOT);
  }

  // add_child with a freshly allocated inode, then save_dentry_index.
  function Attach(c: Cache, p: InodeID, name: string, mode: Mode, size: nat): Cache
    requires p in c.nodes
  {
    var n := c.nodes[p];
    Cache(c.nodes[p := n.(children := n.children[name := c.next])][c.next := NewNode(name, p, mode, size)],
          c.next + 1)
  }

  // remove_child: the dentry goes, and with it everything below it.
  ghost function Detach(c: Cache, p: InodeID, name: string): Cache
    requires p in c.nodes
  {
    if name !in c.nodes[p].children then c
    else
      var x := c.nodes[p].children[name];
      c.(nodes := map r | r in c.nodes && !Below(c, x, r) ::
           if r == p then c.nodes[p].(children := c.nodes[p].children - {name}) else c.nodes[r])
  }

  // add_child under any name: a child of that name is replaced, and everything
  // below it leaves the tree with it.
  ghost function AttachOver(c: Cache, p: InodeID, name: string, mode: Mode, size: nat): Cache
    requires p in c.nodes
  {
    var d := Detach(c, p, name);
    if p in d.nodes then Attach(d, p, name, mode, size) else d
  }

  lemma AttachOverTree(c: Cache, p: InodeID, name: string, mode: Mode, size: nat)
    requires Tree(c) && p in c.nodes && IsDirMode(c.nodes[p].mode) && ValidName(name)
    ensures Tree(AttachOver(c, p, name, mode, size)) && p in Detach(c, p, name).nodes
    ensures name !in c.nodes[p].children ==> AttachOver(c, p, name, mode, size) == Attach(c, p, name, mode, size)
  {
    DetachTree(c, p, name);
    AttachTree(Detach(c, p, name), p, name, mode, size);
  }

  // Node by node.
  lemma AttachOverNodes(c: Cache, p: InodeID, name: string, mode: Mode, size: nat)
    requires Tree(c) && p in c.nodes
    ensures var d, n := AttachOver(c, p, name, mode, size), c.nodes[p];
            && d.nodes.Keys <= c.nodes.Keys + {c.next} && d.next == c.next + 1
            && forall i :: i in d.nodes ==>
                 d.nodes[i] == if i == c.next then NewNode(name, p, mode, size)
                               else if i == p then n.(children := n.children[name := c.next]) else c.nodes[i]
  {
    IdsBelowNext(c);
    DetachTree(c, p, name);
    var ch := c.nodes[p].children;
    assert (ch - {name})[name := c.next] == ch[name := c.next];
  }

  lemma AttachTree(c: Cache, p: InodeID, name: string, mode: Mode, size: nat)
    requires Tree(c) && p in c.nodes && IsDirMode(c.nodes[p].mode)
    requires ValidName(name) && name !in c.nodes[p].children
    ensures Tree(Attach(c, p, name, mode, size))
  {
    var d := Attach(c, p, name, mode, size);
    IdsBelowNext(c);
    forall x | x in d.nodes ensures Placed(d, x) && ChildrenPlaced(d, x) {
      if x != c.next {
        AttachKeepsPlace(c, p, name, mode, size, x);
        AttachKeepsChildren(c, p, name, mode, size, x);
      }
    }
  }

  lemma AttachKeepsPlace(c: Cache, p: InodeID, name: string, mode: Mode, size: nat, x: InodeID)
    requires Tree(c) && p in c.nodes && name !in c.nodes[p].children && x in c.nodes
    ensures Placed(Attach(c, p, name, mode, size), x)
  {
    IdsBelowNext(c);
    assert Placed(c, x);
  }

  lemma AttachKeepsChildren(c: Cache, p: InodeID, name: string, mode: Mode, size: nat, x: InodeID)
    requires Tree(c) && p in c.nodes && IsDirMode(c.nodes[p].mode) && name !in c.nodes[p].children && x in c.nodes
    ensures ChildrenPlaced(Attach(c, p, name, mode, size), x)
  {
    IdsBelowNext(c);
    assert ChildrenPlaced(c, x);
  }

  lemma DetachTree(c: Cache, p: InodeID, name: string)
    requires Tree(c) && p in c.nodes
    ensures Tree(Detach(c, p, name)) && p in Detach(c, p, name).nodes
  {
    assert Placed(c, p) && ChildrenPlaced(c, p);
    if name in c.nodes[p].children {
      var x := c.nodes[p].children[name];
      var d := Detach(c, p, name);
      assert Placed(c, x);
      if Below(c, x, ROOT) { BelowOrder(c, x, ROOT); }
      if Below(c, x, p) { BelowOrder(c, x, p); }
      forall r | r in d.nodes ensures Placed(d, r) && ChildrenPlaced(d, r) {
        assert Placed(c, r) && ChildrenPlaced(c, r);
        forall k | k in d.nodes[r].children
          ensures d.nodes[r].children[k] in d.nodes
        {
          ChildNames(c, r, k);
        }
      }
    }
  }

  // ---- What does not change for dentries that stay -------------------------------

  // Every dentry of c that is still in d has the same name and parent there,
  // and the parent is still there too.
  ghost predicate Stays(c: Cache, d: Cache) {
    forall r :: r in c.nodes && r in d.nodes ==>
      c.nodes[r].name == d.nodes[r].name && c.nodes[r].parent == d.nodes[r].parent
      && (r != ROOT ==> c.nodes[r].parent in d.nodes)
  }

  // A dentry's path never changes during its life.
  lemma {:induction false} PathForLife(c: Cache, d: Cache, r: InodeID)
    requires Tree(c) && Stays(c, d) && r in c.nodes && r in d.nodes
    ensures Names(d, r) == Names(c, r)
    decreases r
  {
    assert Placed(c, r);
    if r != ROOT { PathForLife(c, d, c.nodes[r].parent); }
  }

  lemma AttachStays(c: Cache, p: InodeID, name: string, mode: Mode, size: nat)
    requires Tree(c) && p in c.nodes
    ensures Stays(c, Attach(c, p, name, mode, size))
  {
    IdsBelowNext(c);
    forall r | r in c.nodes ensures r != ROOT ==> c.nodes[r].parent in c.nodes { assert Placed(c, r); }
  }

  lemma DetachStays(c: Cache, p: InodeID, name: string)
    requires Tree(c) && p in c.nodes
    ensures Stays(c, Detach(c, p, name))
  {
    DetachTree(c, p, name);
    var d := Detach(c, p, name);
    forall r | r in d.nodes ensures r != ROOT ==> c.nodes[r].parent in d.nodes { assert Placed(d, r); }
  }

  // Creating a dentry under an absent name and removing it again restores the
  // attached dentries; only the id is used up.
  lemma DetachUndoesAttach(c: Cache, p: InodeID, name: string, mode: Mode, size: nat)
    requires Tree(c) && p in c.nodes && IsDirMode(c.nodes[p].mode)
    requires ValidName(name) && name !in c.nodes[p].children
    ensures Detach(Attach(c, p, name, mode, size), p, name).nodes == c.nodes
  {
    var d := Attach(c, p, name, mode, size);
    AttachTree(c, p, name, mode, size);
    IdsBelowNext(c);
    forall r | r in d.nodes ensures Below(d, c.next, r) <==> r == c.next {
      assert Placed(d, r);
      if Below(d, c.next, r) { BelowOrder(d, c.next, r); }
    }
    var e := Detach(d, p, name);
    assert e.nodes.Keys == c.nodes.Keys;
    assert d.nodes[p].children - {name} == c.nodes[p].children;
  }
}

// Sweeping what was not listed out of the cache (clear_unsync_dentry).
module Sweep {
  import opened Basics
  import opened DentryTree
  import opened Merge

  // Marked all the way up to directory d, which itself need not be.
  ghost predicate Kept(c: Cache, d: InodeID, r: InodeID)
    decreases r
  {
    r == d || (r in c.nodes && c.nodes[r].synced && c.nodes[r].parent < r && Kept(c, d, c.nodes[r].parent))
  }

  ghost predicate Visited(c: Cache, d: InodeID, r: InodeID)
    requires r in c.nodes
  {
    r == d || IsDirMode(c.nodes[r].mode)
  }

  ghost function MarkedChildren(c: Cache, r: InodeID): map<string, InodeID>
    requires r in c.nodes
  {
    var ch := c.nodes[r].children;
    map k | k in ch && ch[k] in c.nodes && c.nodes[ch[k]].synced :: ch[k]
  }

  ghost function SweptNode(c: Cache, d: InodeID, r: InodeID, ttl: Time): Node
    requires r in c.nodes
  {
    var n := c.nodes[r];
    n.(synced := Visited(c, d, r), ttl := ttl,
       complete := n.complete || (Visited(c, d, r) && n.children != map[]),
       children := MarkedChildren(c, r))
  }

  // The cache after the sweep of d: below d, exactly the dentries that are
  // marked all the way up to d are left. Directories end up marked again and
  // files unmarked; a directory that had children is taken for complete even
  // when the sweep removed them.
  ghost function Swept(c: Cache, d: InodeID, ttl: Time): Cache {
    c.(nodes := map r | r in c.nodes && (!Below(c, d, r) || Kept(c, d, r)) ::
         if Below(c, d, r) then SweptNode(c, d, r, ttl) else c.nodes[r])
  }

  // What is left is a tree.
  lemma SweptTree(c: Cache, d: InodeID, ttl: Time)
    requires Tree(c) && d in c.nodes
    ensures Tree(Swept(c, d, ttl)) && d in Swept(c, d, ttl).nodes
  {
    var s := Swept(c, d, ttl);
    IdsBelowNext(c);
    assert Placed(c, ROOT);
    forall r | r in s.nodes ensures Placed(s, r) && ChildrenPlaced(s, r) {
      SweptPlaced(c, d, ttl, r);
      SweptChildren(c, d, ttl, r);
    }
  }

  lemma SweptPlaced(c: Cache, d: InodeID, ttl: Time, r: InodeID)
    requires Tree(c) && d in c.nodes && r in Swept(c, d, ttl).nodes
    ensures Placed(Swept(c, d, ttl), r)
  {
    var s := Swept(c, d, ttl);
    assert Placed(c, r);
    if r != ROOT {
      var q := c.nodes[r].parent;
      if Below(c, d, q) { BelowOrder(c, d, q); }
      assert Below(c, d, q) <==> Below(c, d, r) && r != d;
      assert q in s.nodes;
      if Below(c, d, q) { assert c.nodes[r].name in MarkedChildren(c, q); }
    }
  }

  lemma SweptChildren(c: Cache, d: InodeID, ttl: Time, r: InodeID)
    requires Tree(c) && d in c.nodes && r in Swept(c, d, ttl).nodes
    ensures ChildrenPlaced(Swept(c, d, ttl), r)
  {
    var s := Swept(c, d, ttl);
    assert ChildrenPlaced(c, r);
    forall k | k in s.nodes[r].children
      ensures var i := s.nodes[r].children[k];
              i in s.nodes && i != ROOT && s.nodes[i].parent == r && s.nodes[i].name == k
    {
      assert k in c.nodes[r].children;
      assert Placed(c, c.nodes[r].children[k]);
    }
  }

  // ---- Half-way through -----------------------------------------------------

  // An unmarked dentry among those processed so far is at or above r.
  ghost predicate Gone(c: Cache, done: set<InodeID>, r: InodeID)
    decreases r
  {
    r in c.nodes
    && ((r in done && !c.nodes[r].synced) || (c.nodes[r].parent < r && Gone(c, done, c.nodes[r].parent)))
  }

  ghost function LeftChildren(c: Cache, done: set<InodeID>, r: InodeID): map<string, InodeID>
    requires r in c.nodes
  {
    var ch := c.nodes[r].children;
    map k | k in ch && !(ch[k] in done && ch[k] in c.nodes && !c.nodes[ch[k]].synced) :: ch[k]
  }

  ghost function PartNode(c: Cache, popped: set<InodeID>, done: set<InodeID>, r: InodeID, ttl: Time): Node
    requires r in c.nodes
  {
    var n := c.nodes[r];
    n.(synced := if r in popped then true else if r in done then false else n.synced,
       ttl := if r in popped || r in done then ttl else n.ttl,
       complete := n.complete
                   || ((r in popped || (r in done && IsDirMode(n.mode))) && n.children != map[]),
       children := LeftChildren(c, done, r))
  }

  // The cache when the directories in `popped` have left the queue and the
  // dentries in `done` have been looked at as children.
  ghost function Part(c: Cache, popped: set<InodeID>, done: set<InodeID>, ttl: Time): Cache {
    c.(nodes := map r | r in c.nodes && !Gone(c, done, r) :: PartNode(c, popped, done, r, ttl))
  }

  lemma {:induction false} NothingGone(c: Cache, r: InodeID)
    ensures !Gone(c, {}, r)
    decreases r
  {
    if r in c.nodes && c.nodes[r].parent < r { NothingGone(c, c.nodes[r].parent); }
  }

  lemma PartStart(c: Cache, ttl: Time)
    ensures Part(c, {}, {}, ttl) == c
  {
    forall r | r in c.nodes
      ensures !Gone(c, {}, r) && PartNode(c, {}, {}, r, ttl) == c.nodes[r]
    {
      NothingGone(c, r);
      assert LeftChildren(c, {}, r) == c.nodes[r].children;
    }
    assert Part(c, {}, {}, ttl).nodes == c.nodes;
  }

  // What is processed is always a set of children of popped directories.
  ghost predicate Frontier(c: Cache, popped: set<InodeID>, done: set<InodeID>) {
    && popped <= c.nodes.Keys
    && forall x :: x in done ==> x in c.nodes && x != ROOT && c.nodes[x].parent in popped
  }

  lemma UnpoppedIntact(c: Cache, popped: set<InodeID>, done: set<InodeID>, e: InodeID)
    requires Tree(c) && Frontier(c, popped, done) && e in c.nodes && e !in popped
    ensures LeftChildren(c, done, e) == c.nodes[e].children
  {
    forall k | k in c.nodes[e].children ensures c.nodes[e].children[k] !in done {
      assert ChildrenPlaced(c, e);
    }
  }

  // What becomes of a directory that leaves the queue, and of a marked child.
  function Popped(n: Node, ttl: Time): Node {
    n.(synced := true, ttl := ttl, complete := n.complete || n.children != map[])
  }

  function Settled(n: Node, ttl: Time): Node {
    n.(synced := false, ttl := ttl, complete := n.complete || (IsDirMode(n.mode) && n.children != map[]))
  }

  // A child not looked at yet is as it was.
  lemma PartChild(c: Cache, popped: set<InodeID>, done: set<InodeID>, e: InodeID, k: string, ttl: Time)
    requires Tree(c) && e in c.nodes && k in c.nodes[e].children && !Gone(c, done, e)
    requires var m := c.nodes[e].children[k]; m in c.nodes && m !in done && m !in popped && !Gone(c, done, m)
    ensures var m := c.nodes[e].children[k];
            var a := Part(c, popped, done, ttl);
            && e in a.nodes && k in a.nodes[e].children && a.nodes[e].children[k] == m && m in a.nodes
            && a.nodes[m].synced == c.nodes[m].synced && a.nodes[m].mode == c.nodes[m].mode
  {}

  lemma PopStep(c: Cache, popped: set<InodeID>, done: set<InodeID>, e: InodeID, ttl: Time)
    requires Tree(c) && Frontier(c, popped, done) && e in c.nodes && e !in popped && !Gone(c, done, e)
    ensures e in Part(c, popped, done, ttl).nodes
    ensures var n := Part(c, popped, done, ttl).nodes[e];
            && n.children == c.nodes[e].children
            && Part(c, popped + {e}, done, ttl) ==
               SetNode(Part(c, popped, done, ttl), e, Popped(n, ttl))
  {
    UnpoppedIntact(c, popped, done, e);
    var a, b := Part(c, popped, done, ttl), Part(c, popped + {e}, done, ttl);
    var n := a.nodes[e];
    var m := SetNode(a, e, Popped(n, ttl));
    assert b.nodes.Keys == m.nodes.Keys;
    assert b.nodes == m.nodes;
  }

  lemma {:induction false} GoneOneMore(c: Cache, done: set<InodeID>, m: InodeID, r: InodeID)
    requires Tree(c) && r in c.nodes && m in c.nodes
    ensures Gone(c, done + {m}, r) <==> Gone(c, done, r) || (!c.nodes[m].synced && Below(c, m, r))
    decreases r
  {
    assert Placed(c, r);
    if r != ROOT {
      GoneOneMore(c, done, m, c.nodes[r].parent);
    } else {
      RootAlone(c, m);
      IdsBelowNext(c);
    }
  }

  lemma KeepStep(c: Cache, popped: set<InodeID>, done: set<InodeID>, m: InodeID, ttl: Time)
    requires Tree(c) && Frontier(c, popped, done)
    requires m in c.nodes && m !in popped && m !in done && !Gone(c, done, m) && c.nodes[m].synced
    ensures m in Part(c, popped, done, ttl).nodes
    ensures var n := Part(c, popped, done, ttl).nodes[m];
            && n.synced && n.mode == c.nodes[m].mode
            && Part(c, popped, done + {m}, ttl) ==
               SetNode(Part(c, popped, done, ttl), m, Settled(n, ttl))
  {
    UnpoppedIntact(c, popped, done, m);
    var a, b := Part(c, popped, done, ttl), Part(c, popped, done + {m}, ttl);
    var n := a.nodes[m];
    var s := SetNode(a, m, Settled(n, ttl));
    forall r | r in c.nodes
      ensures Gone(c, done + {m}, r) <==> Gone(c, done, r)
      ensures LeftChildren(c, done + {m}, r) == LeftChildren(c, done, r)
    {
      GoneOneMore(c, done, m, r);
    }
    assert b.nodes.Keys == s.nodes.Keys;
    assert b.nodes == s.nodes;
  }

  // What is still there hangs under what is still there.
  lemma {:induction false} PartBelow(c: Cache, popped: set<InodeID>, done: set<InodeID>, m: InodeID, r: InodeID,
                                     ttl: Time)
    requires Tree(c) && r in Part(c, popped, done, ttl).nodes
    ensures Below(Part(c, popped, done, ttl), m, r) == Below(c, m, r)
    decreases r
  {
    assert Placed(c, r);
    if r != ROOT {
      PartBelow(c, popped, done, m, c.nodes[r].parent, ttl);
    } else {
      RootAlone(c, m);
      if m != 0 && Below(Part(c, popped, done, ttl), m, 0) { BelowOrder(Part(c, popped, done, ttl), m, 0); }
    }
  }

  lemma DropStep(c: Cache, popped: set<InodeID>, done: set<InodeID>, e: InodeID, k: string, m: InodeID, ttl: Time)
    requires Tree(c) && Frontier(c, popped, done) && e in c.nodes && !Gone(c, done, e)
    requires k in c.nodes[e].children && m == c.nodes[e].children[k]
    requires m in c.nodes && m !in done && !c.nodes[m].synced
    ensures var a := Part(c, popped, done, ttl);
            && e in a.nodes && k in a.nodes[e].children && a.nodes[e].children[k] == m
            && Part(c, popped, done + {m}, ttl) == Detach(a, e, k)
  {
    var a, b := Part(c, popped, done, ttl), Part(c, popped, done + {m}, ttl);
    var s := Detach(a, e, k);
    ChildNames(c, e, k);
    forall r | r in c.nodes
      ensures Gone(c, done + {m}, r) <==> Gone(c, done, r) || Below(c, m, r)
      ensures r in a.nodes ==> Below(a, m, r) == Below(c, m, r)
    {
      GoneOneMore(c, done, m, r);
      if r in a.nodes { PartBelow(c, popped, done, m, r, ttl); }
    }
    assert b.nodes.Keys == s.nodes.Keys;
    forall r | r in b.nodes ensures b.nodes[r] == s.nodes[r] {
      DropNode(c, popped, done, e, k, r, ttl);
    }
  }

  lemma DropNode(c: Cache, popped: set<InodeID>, done: set<InodeID>, e: InodeID, k: string, r: InodeID, ttl: Time)
    requires Tree(c) && e in c.nodes && k in c.nodes[e].children && r in c.nodes
    requires var m := c.nodes[e].children[k];
             m in c.nodes && m !in done && !c.nodes[m].synced && !Below(c, m, r)
    ensures var n := PartNode(c, popped, done, r, ttl);
            PartNode(c, popped, done + {c.nodes[e].children[k]}, r, ttl) ==
            if r == e then n.(children := n.children - {k}) else n
  {
    var m := c.nodes[e].children[k];
    assert r != m;
    ChildNames(c, e, k);
    forall j | j in c.nodes[r].children && c.nodes[r].children[j] == m ensures r == e && j == k {
      ChildNames(c, r, j);
      assert ChildrenPlaced(c, r) && ChildrenPlaced(c, e);
    }
    var x, y := LeftChildren(c, done, r), LeftChildren(c, done + {m}, r);
    if r == e {
      assert y == x - {k};
    } else {
      assert y == x;
    }
  }

  // The same three steps, for the caches before and after.
  lemma AfterPop(c: Cache, popped: set<InodeID>, done: set<InodeID>, e: InodeID, ttl: Time, a: Cache, b: Cache)
    requires Tree(c) && Frontier(c, popped, done) && e in c.nodes && e !in popped && !Gone(c, done, e)
    requires a == Part(c, popped, done, ttl) && e in a.nodes && b == SetNode(a, e, Popped(a.nodes[e], ttl))
    ensures b == Part(c, popped + {e}, done, ttl) && b.nodes[e].children == c.nodes[e].children
  {
    PopStep(c, popped, done, e, ttl);
  }

  lemma AfterDrop(c: Cache, popped: set<InodeID>, done: set<InodeID>, e: InodeID, k: string, m: InodeID, ttl: Time,
                  a: Cache, b: Cache)
    requires Tree(c) && Frontier(c, popped, done) && e in c.nodes && !Gone(c, done, e)
    requires k in c.nodes[e].children && m == c.nodes[e].children[k]
    requires m in c.nodes && m !in done && !c.nodes[m].synced
    requires a == Part(c, popped, done, ttl) && e in a.nodes && b == Detach(a, e, k)
    ensures b == Part(c, popped, done + {m}, ttl)
  {
    DropStep(c, popped, done, e, k, m, ttl);
  }

  lemma AfterKeep(c: Cache, popped: set<InodeID>, done: set<InodeID>, m: InodeID, ttl: Time, a: Cache, b: Cache)
    requires Tree(c) && Frontier(c, popped, done)
    requires m in c.nodes && m !in popped && m !in done && !Gone(c, done, m) && c.nodes[m].synced
    requires a == Part(c, popped, done, ttl) && m in a.nodes && b == SetNode(a, m, Settled(a.nodes[m], ttl))
    ensures b == Part(c, popped, done + {m}, ttl)
  {
    KeepStep(c, popped, done, m, ttl);
  }

  // ---- The sweep is complete ----------------------------------------------------

  // The loop has visited everything it can reach.
  ghost predicate Exhausted(c: Cache, d: InodeID, popped: set<InodeID>, done: set<InodeID>) {
    && Frontier(c, popped, done) && d in popped
    && (forall r :: r in popped ==> Below(c, d, r) && Kept(c, d, r) && Visited(c, d, r))
    && (forall r, k :: r in popped && k in c.nodes[r].children ==> c.nodes[r].children[k] in done)
    && (forall x :: x in done && c.nodes[x].synced && IsDirMode(c.nodes[x].mode) ==> x in popped)
  }

  lemma OnlyRootAboveRoot(c: Cache, d: InodeID)
    requires Tree(c) && d in c.nodes
    ensures Below(c, d, ROOT) ==> d == ROOT
  {
    IdsBelowNext(c);
    assert Placed(c, ROOT);
    RootAlone(c, d);
  }

  lemma {:induction false} KeptReached(c: Cache, d: InodeID, popped: set<InodeID>, done: set<InodeID>, r: InodeID)
    requires Tree(c) && Exhausted(c, d, popped, done) && r in c.nodes
    requires r != d && Below(c, d, r)
    ensures Kept(c, d, c.nodes[r].parent) ==> c.nodes[r].parent in popped && r in done
    ensures r in done ==> Kept(c, d, c.nodes[r].parent)
    decreases r
  {
    OnlyRootAboveRoot(c, d);
    assert Placed(c, r);
    var p := c.nodes[r].parent;
    assert p in popped ==> c.nodes[p].children[c.nodes[r].name] in done;
    if p != d {
      KeptReached(c, d, popped, done, p);
      assert ChildrenPlaced(c, p);
    }
  }

  lemma {:induction false} GoneIsNotKept(c: Cache, d: InodeID, popped: set<InodeID>, done: set<InodeID>, r: InodeID)
    requires Tree(c) && Exhausted(c, d, popped, done) && r in c.nodes
    ensures Gone(c, done, r) <==> Below(c, d, r) && !Kept(c, d, r)
    decreases r
  {
    assert Placed(c, r);
    if r != ROOT {
      var p := c.nodes[r].parent;
      GoneIsNotKept(c, d, popped, done, p);
      if r == d || !Below(c, d, r) {
        if r in done { BelowOrder(c, d, p); }
        if r == d && Below(c, d, p) { BelowOrder(c, d, p); }
      } else {
        KeptReached(c, d, popped, done, r);
      }
    } else {
      IdsBelowNext(c);
      OnlyRootAboveRoot(c, d);
    }
  }

  lemma PartIsSwept(c: Cache, d: InodeID, popped: set<InodeID>, done: set<InodeID>, ttl: Time)
    requires Tree(c) && Exhausted(c, d, popped, done)
    ensures Part(c, popped, done, ttl) == Swept(c, d, ttl)
  {
    var a, b := Part(c, popped, done, ttl), Swept(c, d, ttl);
    forall r | r in c.nodes ensures r in a.nodes <==> r in b.nodes {
      GoneIsNotKept(c, d, popped, done, r);
    }
    forall r | r in a.nodes ensures a.nodes[r] == b.nodes[r] {
      PartNodeIsSwept(c, d, popped, done, r, ttl);
    }
    assert a.nodes == b.nodes;
  }

  lemma PartNodeIsSwept(c: Cache, d: InodeID, popped: set<InodeID>, done: set<InodeID>, r: InodeID, ttl: Time)
    requires Tree(c) && Exhausted(c, d, popped, done) && r in c.nodes
    requires !Gone(c, done, r)
    ensures PartNode(c, popped, done, r, ttl) == if Below(c, d, r) then SweptNode(c, d, r, ttl) else c.nodes[r]
  {
    GoneIsNotKept(c, d, popped, done, r);
    assert Placed(c, r) && ChildrenPlaced(c, r);
    if Below(c, d, r) {
      if r != d { KeptReached(c, d, popped, done, r); }
      if r in popped {
        assert LeftChildren(c, done, r) == MarkedChildren(c, r);
      } else {
        assert c.nodes[r].children == map[];
        assert LeftChildren(c, done, r) == MarkedChildren(c, r);
      }
    } else {
      assert r !in popped;
      forall k | k in c.nodes[r].children ensures c.nodes[r].children[k] !in done {}
      assert LeftChildren(c, done, r) == c.nodes[r].children;
    }
  }

  lemma AfterAll(c: Cache, d: InodeID, popped: set<InodeID>, done: set<InodeID>, ttl: Time, a: Cache)
    requires Tree(c) && Exhausted(c, d, popped, done) && a == Part(c, popped, done, ttl)
    ensures a == Swept(c, d, ttl)
  {
    PartIsSwept(c, d, popped, done, ttl);
  }
}

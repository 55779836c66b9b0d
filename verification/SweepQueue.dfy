// The queue of the sweep: what is true between its steps.
module SweepQueue {
  import opened Basics
  import opened DentryTree
  import opened Sweep

  // A directory that belongs in the queue at some time.
  ghost predicate Reached(c: Cache, d: InodeID, done: set<InodeID>, x: InodeID) {
    x in c.nodes && Below(c, d, x) && Kept(c, d, x) && Visited(c, d, x) && (x == d || x in done)
  }

  ghost predicate AllDone(c: Cache, done: set<InodeID>, r: InodeID, rest: set<string>) {
    r in c.nodes && forall k :: k in c.nodes[r].children && k !in rest ==> c.nodes[r].children[k] in done
  }

  ghost predicate Distinct(qs: seq<InodeID>) {
    forall i, j :: 0 <= i < j < |qs| ==> qs[i] != qs[j]
  }

  lemma DistinctPop(qs: seq<InodeID>)
    requires Distinct(qs) && qs != []
    ensures Distinct(qs[1..]) && qs[0] !in qs[1..]
    ensures forall x :: x in qs <==> x == qs[0] || x in qs[1..]
  {}

  lemma DistinctPush(qs: seq<InodeID>, m: InodeID)
    requires Distinct(qs) && m !in qs
    ensures Distinct(qs + [m])
    ensures forall x :: x in qs + [m] <==> x == m || x in qs
  {}

  // Directory e is being processed, with the names in `rest` still to be
  // looked at; qs is the queue.
  ghost predicate Bfs(c: Cache, d: InodeID, popped: set<InodeID>, done: set<InodeID>, qs: seq<InodeID>,
                      e: InodeID, rest: set<string>) {
    && Frontier(c, popped, done)
    && (forall r :: r in popped ==> Reached(c, d, done, r))
    && (forall r {:trigger AllDone(c, done, r, {})} :: r in popped && r != e ==> AllDone(c, done, r, {}))
    && (e in popped ==> AllDone(c, done, e, rest))
    && (forall x :: x in done && c.nodes[x].synced && IsDirMode(c.nodes[x].mode) ==> x in popped || x in qs)
    && (forall x :: x in qs ==> x !in popped && Reached(c, d, done, x))
    && Distinct(qs)
    && (d in popped || d in qs)
    && (rest != {} ==> e in popped)
    && (forall k :: k in rest ==> k in c.nodes[e].children && c.nodes[e].children[k] !in done)
  }

  lemma BfsStart(c: Cache, d: InodeID)
    requires Tree(c) && d in c.nodes
    ensures Bfs(c, d, {}, {}, [d], d, {})
  {}

  // Nothing at or above d has been processed as a child.
  lemma {:induction false} NotGoneAbove(c: Cache, d: InodeID, popped: set<InodeID>, done: set<InodeID>, r: InodeID)
    requires Tree(c) && Frontier(c, popped, done) && r <= d
    requires forall x :: x in popped ==> Below(c, d, x)
    ensures !Gone(c, done, r)
    decreases r
  {
    if r in c.nodes {
      assert Placed(c, r);
      if r in done { BelowOrder(c, d, c.nodes[r].parent); }
      if c.nodes[r].parent < r { NotGoneAbove(c, d, popped, done, c.nodes[r].parent); }
    }
  }

  lemma {:induction false} KeptNotGone(c: Cache, d: InodeID, popped: set<InodeID>, done: set<InodeID>, r: InodeID)
    requires Tree(c) && Frontier(c, popped, done) && Kept(c, d, r)
    requires forall x :: x in popped ==> Below(c, d, x)
    ensures !Gone(c, done, r)
    decreases r
  {
    if r == d {
      NotGoneAbove(c, d, popped, done, d);
    } else {
      KeptNotGone(c, d, popped, done, c.nodes[r].parent);
    }
  }

  lemma BfsPop(c: Cache, d: InodeID, popped: set<InodeID>, done: set<InodeID>, qs: seq<InodeID>, e': InodeID)
    requires Tree(c) && Bfs(c, d, popped, done, qs, e', {}) && qs != []
    ensures var e := qs[0];
            && e in c.nodes && e !in popped && Frontier(c, popped, done) && !Gone(c, done, e)
            && Bfs(c, d, popped + {e}, done, qs[1..], e, c.nodes[e].children.Keys)
  {
    var e := qs[0];
    KeptNotGone(c, d, popped, done, e);
    forall k | k in c.nodes[e].children ensures c.nodes[e].children[k] !in done {
      ChildNames(c, e, k);
    }
    DistinctPop(qs);
    assert AllDone(c, done, e', {}) || e' !in popped;
  }

  // What is known about the next child, whichever it is.
  lemma BfsChild(c: Cache, d: InodeID, popped: set<InodeID>, done: set<InodeID>, qs: seq<InodeID>,
                 e: InodeID, rest: set<string>, k: string)
    requires Tree(c) && Bfs(c, d, popped, done, qs, e, rest) && k in rest
    ensures e in c.nodes && k in c.nodes[e].children && Frontier(c, popped, done) && !Gone(c, done, e)
    ensures var m := c.nodes[e].children[k];
            && m in c.nodes && c.nodes[m].parent == e && m !in popped && m !in done && !Gone(c, done, m)
            && m != d && m !in qs
  {
    var m := c.nodes[e].children[k];
    ChildNames(c, e, k);
    KeptNotGone(c, d, popped, done, e);
    BelowOrder(c, d, e);
  }

  lemma BfsStep(c: Cache, d: InodeID, popped: set<InodeID>, done: set<InodeID>, qs: seq<InodeID>,
                e: InodeID, rest: set<string>, k: string, m: InodeID, qs': seq<InodeID>)
    requires Tree(c) && Bfs(c, d, popped, done, qs, e, rest) && k in rest && m == c.nodes[e].children[k] && m in c.nodes
    requires qs' == if c.nodes[m].synced && IsDirMode(c.nodes[m].mode) then qs + [m] else qs
    ensures Bfs(c, d, popped, done + {m}, qs', e, rest - {k})
  {
    BfsChild(c, d, popped, done, qs, e, rest, k);
    IdsBelowNext(c);
    assert Placed(c, m);
    DistinctPush(qs, m);
    if c.nodes[m].synced && IsDirMode(c.nodes[m].mode) {
      assert Reached(c, d, done + {m}, m);
    }
    forall r | r in popped && r != e ensures AllDone(c, done + {m}, r, {}) { assert AllDone(c, done, r, {}); }
    forall j | j in rest - {k} ensures c.nodes[e].children[j] != m {
      ChildNames(c, e, j);
      ChildNames(c, e, k);
    }
    assert Below(c, d, m);
  }

  lemma BfsEnd(c: Cache, d: InodeID, popped: set<InodeID>, done: set<InodeID>, e: InodeID)
    requires Tree(c) && Bfs(c, d, popped, done, [], e, {})
    ensures Exhausted(c, d, popped, done)
  {
    forall r | r in popped ensures AllDone(c, done, r, {}) {
      assert r != e ==> AllDone(c, done, r, {});
    }
  }
}

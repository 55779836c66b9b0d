// Mark and sweep together: which paths a refresh leaves in the cache.
module Refresh {
  import opened Basics
  import opened DentryTree
  import opened Merge
  import opened Sweep

  // get_child along names, through marked dentries only.
  ghost function MarkedWalk(c: Cache, a: InodeID, q: seq<string>): Option<InodeID>
    decreases |q|
  {
    if q == [] then Some(a)
    else if a in c.nodes && q[0] in MarkedChildren(c, a) then MarkedWalk(c, c.nodes[a].children[q[0]], q[1..])
    else None
  }

  lemma {:induction false} SweptWalk(c: Cache, d: InodeID, ttl: Time, a: InodeID, q: seq<string>)
    requires Tree(c) && a in c.nodes && Below(c, d, a) && Kept(c, d, a)
    ensures Walk(Swept(c, d, ttl), a, q) == MarkedWalk(c, a, q)
    decreases |q|
  {
    if q != [] && q[0] in MarkedChildren(c, a) {
      ChildNames(c, a, q[0]);
      SweptWalk(c, d, ttl, c.nodes[a].children[q[0]], q[1..]);
    }
  }

  ghost predicate MarkedAt(c: Cache, a: InodeID, q: seq<string>) {
    match Walk(c, a, q)
    case Some(r) => r in c.nodes && c.nodes[r].synced
    case None => false
  }

  lemma {:induction false} MarkedWalkIsWalk(c: Cache, a: InodeID, q: seq<string>)
    requires Tree(c) && a in c.nodes
    ensures MarkedWalk(c, a, q) ==
            if (forall i :: 0 < i <= |q| ==> MarkedAt(c, a, q[..i])) then Walk(c, a, q) else None
    decreases |q|
  {
    if q != [] {
      assert q[..1] == [q[0]];
      if q[0] in c.nodes[a].children {
        ChildNames(c, a, q[0]);
        var x := c.nodes[a].children[q[0]];
        assert Walk(c, a, [q[0]]) == Walk(c, x, []);
        MarkedWalkIsWalk(c, x, q[1..]);
        forall i | 0 < i < |q| ensures MarkedAt(c, a, q[..i + 1]) == MarkedAt(c, x, q[1..][..i]) {
          assert q[..i + 1][1..] == q[1..][..i];
        }
        if forall i :: 0 < i <= |q| ==> MarkedAt(c, a, q[..i]) {
          forall i | 0 < i <= |q[1..]| ensures MarkedAt(c, x, q[1..][..i]) {
            assert MarkedAt(c, a, q[..i + 1]);
          }
        } else {
          var i :| 0 < i <= |q| && !MarkedAt(c, a, q[..i]);
          if i > 1 { assert !MarkedAt(c, x, q[1..][..i - 1]); }
        }
      } else {
        assert !MarkedAt(c, a, q[..1]);
      }
    }
  }

  // Listed, or carrying a mark from before.
  ghost predicate ListedOrMarked(c: Cache, d: InodeID, info: Info, q: seq<string>) {
    q in info || MarkedAt(c, d, q)
  }

  ghost predicate Survives(c: Cache, d: InodeID, info: Info, q: seq<string>) {
    forall i :: 0 < i <= |q| ==> ListedOrMarked(c, d, info, q[..i])
  }

  // What a merge of T followed by the sweep leaves below d: a path is there
  // exactly when each of its steps is listed in T or was marked before, and a
  // dentry that was there before the merge keeps its id.
  lemma MergeThenSweep(c: Cache, m: Cache, d: InodeID, info: Info, ttl: Time, q: seq<string>)
    requires Tree(c) && Tree(m) && d in c.nodes && MergedBy(c, m, d, info)
    ensures Walk(Swept(m, d, ttl), d, q).Some? <==>
            Survives(c, d, info, q) && (q in info || Walk(c, d, q).Some?)
    ensures Walk(Swept(m, d, ttl), d, q).Some? ==>
              if Walk(c, d, q).Some? then Walk(Swept(m, d, ttl), d, q) == Walk(c, d, q)
              else c.next <= Walk(Swept(m, d, ttl), d, q).value
  {
    SweptWalk(m, d, ttl, d, q);
    MarkedWalkIsWalk(m, d, q);
    assert PathMerged(c, m, d, info, q);
    forall i | 0 < i <= |q| ensures MarkedAt(m, d, q[..i]) == ListedOrMarked(c, d, info, q[..i]) {
      assert PathMerged(c, m, d, info, q[..i]);
      if Walk(c, d, q[..i]).Some? { WalkIsBelow(c, d, q[..i]); }
    }
    assert q == q[..|q|];
  }

  lemma LastStep(c: Cache, d: InodeID, info: Info, q: seq<string>)
    requires q != [] && Survives(c, d, info, q)
    ensures ListedOrMarked(c, d, info, q)
  {
    assert q[..|q|] == q;
    assert ListedOrMarked(c, d, info, q[..|q|]);
  }

  ghost predicate ClearBelow(c: Cache, d: InodeID) {
    forall r :: r in c.nodes && Below(c, d, r) && r != d ==> !c.nodes[r].synced
  }

  lemma {:induction false} InfoPrefixClosed(ts: map<string, FTree>, q: seq<string>, i: nat)
    requires q in TreeInfo(ts) && 0 < i <= |q|
    ensures q[..i] in TreeInfo(ts)
    decreases |q|
  {
    if i > 1 {
      InfoPrefixClosed(ts[q[0]].children, q[1..], i - 1);
      assert q[..i][1..] == q[1..][..i - 1];
    }
  }

  // Exactness. From clear marks below d, merging T and sweeping leaves exactly
  // the paths of T below d, at every depth and for any iteration order.
  lemma RefreshExact(c: Cache, m: Cache, d: InodeID, ts: map<string, FTree>, ttl: Time, q: seq<string>)
    requires Tree(c) && Tree(m) && d in c.nodes && MergedBy(c, m, d, TreeInfo(ts))
    requires ClearBelow(c, d)
    ensures Walk(Swept(m, d, ttl), d, q).Some? <==> q == [] || q in TreeInfo(ts)
    ensures q in TreeInfo(ts) && Walk(c, d, q).Some? ==> Walk(Swept(m, d, ttl), d, q) == Walk(c, d, q)
  {
    MergeThenSweep(c, m, d, TreeInfo(ts), ttl, q);
    assert q[..|q|] == q;
    forall i | 0 < i <= |q| ensures !MarkedAt(c, d, q[..i]) {
      if Walk(c, d, q[..i]).Some? {
        WalkIsBelow(c, d, q[..i]);
        if Walk(c, d, q[..i]) == Some(d) { WalkUnique(c, d, q[..i], []); }
      }
    }
    if q in TreeInfo(ts) {
      forall i | 0 < i <= |q| ensures ListedOrMarked(c, d, TreeInfo(ts), q[..i]) { InfoPrefixClosed(ts, q, i); }
    } else if q != [] && Survives(c, d, TreeInfo(ts), q) {
      LastStep(c, d, TreeInfo(ts), q);
    }
  }

  // ---- Marks between refreshes -----------------------------------------------------

  ghost predicate FilesClear(c: Cache) {
    forall r :: r in c.nodes && !IsDirMode(c.nodes[r].mode) ==> !c.nodes[r].synced
  }

  // Every refresh leaves the files of the whole cache without marks.
  lemma RefreshClearsFiles(c: Cache, m: Cache, d: InodeID, info: Info, ttl: Time)
    requires Tree(c) && Tree(m) && d in c.nodes && MergedBy(c, m, d, info)
    requires FilesClear(c) && IsDirMode(c.nodes[d].mode)
    ensures FilesClear(Swept(m, d, ttl))
  {
    var s := Swept(m, d, ttl);
    forall r | r in s.nodes && !IsDirMode(s.nodes[r].mode) ensures !s.nodes[r].synced {
      if r in c.nodes { BelowStable(c, m, d, r); }
    }
  }

  // The marks of directories are another matter: the sweep marks each one it
  // visits, so a directory that one refresh of d kept outlives the next
  // refresh of d, listed or not.
  lemma DirectoriesStick(c: Cache, d: InodeID, ttl: Time, m: Cache, info: Info, ttl': Time, q: seq<string>)
    requires Tree(c) && d in c.nodes && Tree(m)
    requires MergedBy(Swept(c, d, ttl), m, d, info)
    requires Walk(Swept(c, d, ttl), d, q).Some?
    requires var r := Walk(Swept(c, d, ttl), d, q).value;
             r in Swept(c, d, ttl).nodes && IsDirMode(Swept(c, d, ttl).nodes[r].mode)
    ensures Walk(Swept(m, d, ttl'), d, q) == Walk(Swept(c, d, ttl), d, q)
  {
    var s := Swept(c, d, ttl);
    SweptTree(c, d, ttl);
    MergeThenSweep(s, m, d, info, ttl', q);
    forall i | 0 < i <= |q| ensures MarkedAt(s, d, q[..i]) {
      StepMarked(c, d, ttl, q, i);
    }
    assert Survives(s, d, info, q);
  }

  lemma StepMarked(c: Cache, d: InodeID, ttl: Time, q: seq<string>, i: nat)
    requires Tree(c) && d in c.nodes && Tree(Swept(c, d, ttl)) && d in Swept(c, d, ttl).nodes
    requires 0 < i <= |q| && Walk(Swept(c, d, ttl), d, q).Some?
    requires var r := Walk(Swept(c, d, ttl), d, q).value;
             r in Swept(c, d, ttl).nodes && IsDirMode(Swept(c, d, ttl).nodes[r].mode)
    ensures MarkedAt(Swept(c, d, ttl), d, q[..i])
  {
    var s := Swept(c, d, ttl);
    WalkSplit(s, d, q, i);
    WalkIsBelow(s, d, q[..i]);
    var x := Walk(s, d, q[..i]).value;
    SweptBelow(c, d, ttl, d, x);
    if i < |q| {
      assert ChildrenPlaced(s, x);
    } else {
      assert q[..i] == q;
    }
  }

  lemma {:induction false} WalkSplit(c: Cache, a: InodeID, q: seq<string>, i: nat)
    requires i <= |q| && Walk(c, a, q).Some?
    ensures Walk(c, a, q[..i]).Some? && Walk(c, Walk(c, a, q[..i]).value, q[i..]) == Walk(c, a, q)
    ensures i < |q| ==> var x := Walk(c, a, q[..i]).value; x in c.nodes && q[i] in c.nodes[x].children
    decreases |q|
  {
    if i > 0 {
      WalkSplit(c, c.nodes[a].children[q[0]], q[1..], i - 1);
      assert q[..i][1..] == q[1..][..i - 1] && q[i..] == q[1..][i - 1..];
    } else {
      assert q[..0] == [] && q[0..] == q;
    }
  }

  lemma {:induction false} SweptBelow(c: Cache, d: InodeID, ttl: Time, x: InodeID, r: InodeID)
    requires Below(Swept(c, d, ttl), x, r)
    ensures Below(c, x, r)
    decreases r
  {
    if r != x { SweptBelow(c, d, ttl, x, c.nodes[r].parent); }
  }

  // ---- One level further down, and deeper ----------------------------------------------

  // The names that lead from directory d down to a dentry below it.
  ghost function PathBelow(c: Cache, d: InodeID, x: InodeID): seq<string> {
    if Names(c, d) <= Names(c, x) then Names(c, x)[|Names(c, d)|..] else []
  }

  lemma PathBelowWalks(c: Cache, d: InodeID, x: InodeID)
    requires Tree(c) && d in c.nodes && x in c.nodes && Below(c, d, x)
    ensures Walk(c, d, PathBelow(c, d, x)) == Some(x) && (x != d ==> PathBelow(c, d, x) != [])
  {
    var ds, xs := Names(c, d), Names(c, x);
    BelowIsPrefix(c, d, x);
    WalkOfNames(c, d);
    WalkOfNames(c, x);
    WalkSplit(c, ROOT, xs, |ds|);
    assert xs[..|ds|] == ds;
  }

  lemma RefreshStays(c: Cache, m: Cache, d: InodeID, info: Info, ttl: Time)
    requires Tree(c) && Tree(m) && d in c.nodes && MergedBy(c, m, d, info)
    ensures Tree(Swept(m, d, ttl)) && d in Swept(m, d, ttl).nodes && Stays(c, Swept(m, d, ttl))
  {
    var s := Swept(m, d, ttl);
    SweptTree(m, d, ttl);
    forall r | r in c.nodes && r in s.nodes ensures r != ROOT ==> c.nodes[r].parent in s.nodes { assert Placed(s, r); }
  }

  // Below d a refresh keeps the dentries whose path survives, step by step.
  lemma StaysAlong(c: Cache, m: Cache, d: InodeID, info: Info, ttl: Time, x: InodeID)
    requires Tree(c) && Tree(m) && d in c.nodes && MergedBy(c, m, d, info)
    requires x in c.nodes && Below(c, d, x) && x != d
    ensures x in Swept(m, d, ttl).nodes <==> Survives(c, d, info, PathBelow(c, d, x))
  {
    var s, q := Swept(m, d, ttl), PathBelow(c, d, x);
    RefreshStays(c, m, d, info, ttl);
    PathBelowWalks(c, d, x);
    MergeThenSweep(c, m, d, info, ttl, q);
    PathForLife(c, s, d);
    if x in s.nodes {
      PathForLife(c, s, x);
      BelowIsPrefix(c, d, x);
      BelowIsPrefix(s, d, x);
      PathBelowWalks(s, d, x);
    }
    if Walk(s, d, q) == Some(x) { WalkIsBelow(s, d, q); }
  }

  // A refresh of d reaches into all the directories below d that it keeps. Of
  // the children of each it keeps those that carry a mark. The directory counts
  // as complete if it had any child, and as fresh.
  lemma SubdirectoriesHollowed(c: Cache, m: Cache, d: InodeID, info: Info, ttl: Time, x: InodeID)
    requires Tree(c) && Tree(m) && d in c.nodes && MergedBy(c, m, d, info)
    requires forall q :: q in info ==> |q| == 1
    requires x in c.nodes && Below(c, d, x) && x != d && x in Swept(m, d, ttl).nodes
    ensures var n := Swept(m, d, ttl).nodes[x];
            && n.children == MarkedChildren(c, x) && n.ttl == ttl
            && (n.complete <==> c.nodes[x].complete || c.nodes[x].children != map[])
  {
    var q := PathBelow(c, d, x);
    PathBelowWalks(c, d, x);
    BelowStable(c, m, d, x);
    forall j ensures j in c.nodes[x].children <==> j in m.nodes[x].children
      ensures j in c.nodes[x].children ==> c.nodes[x].children[j] == m.nodes[x].children[j]
      ensures j in MarkedChildren(c, x) <==> j in MarkedChildren(m, x)
    {
      ChildSame(c, m, d, info, q, x, j);
    }
    assert c.nodes[x].children == m.nodes[x].children;
    assert MarkedChildren(m, x) == MarkedChildren(c, x);
    assert ChildrenPlaced(c, x);
    assert Kept(m, d, x);
  }

  lemma ChildSame(c: Cache, m: Cache, d: InodeID, info: Info, q: seq<string>, x: InodeID, j: string)
    requires Tree(c) && Tree(m) && d in c.nodes && MergedBy(c, m, d, info)
    requires forall p :: p in info ==> |p| == 1
    requires q != [] && Walk(c, d, q) == Some(x) && x in c.nodes && x in m.nodes
    ensures j in c.nodes[x].children <==> j in m.nodes[x].children
    ensures j in c.nodes[x].children ==> c.nodes[x].children[j] == m.nodes[x].children[j]
    ensures j in MarkedChildren(c, x) <==> j in MarkedChildren(m, x)
  {
    assert q + [j] !in info;
    assert PathMerged(c, m, d, info, q) && PathMerged(c, m, d, info, q + [j]);
    WalkAppend(c, d, q, j);
    WalkAppend(m, d, q, j);
    assert [j][1..] == [];
    if j in c.nodes[x].children { assert Walk(c, x, [j]) == Walk(c, c.nodes[x].children[j], []); }
    if j in m.nodes[x].children { assert Walk(m, x, [j]) == Walk(m, m.nodes[x].children[j], []); }
  }
}

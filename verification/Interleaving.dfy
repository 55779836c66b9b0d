// Threads in the metadata: every interleaving of the locked sections that
// allocate an id, look a dentry up, add or remove a child, and save an index slot.
module Interleaving {
  import opened Basics
  import opened DentryTree

  // A dentry by the order of its allocation; the root comes first.
  type Ptr = nat
  const TOP: Ptr := 0

  datatype Obj = Obj(ino: InodeID, name: string, parent: Ptr, children: map<string, Ptr>)

  // What a thread has in hand: the dentry it works in, an id without a dentry,
  // and a dentry that it added and has not saved in the index.
  datatype Thread = Thread(at: Option<Ptr>, ino: Option<InodeID>, added: Option<Ptr>)

  // objs are the dentries allocated so far, the detached ones included; a slot
  // of the index is NULL after a lookup of an unknown id.
  datatype State = State(next: InodeID, objs: seq<Obj>, index: map<InodeID, Option<Ptr>>, threads: seq<Thread>)

  // One locked section, by thread t.
  datatype Step =
    | Allocate(t: nat)
    | GetDentry(t: nat, ino: InodeID)
    | GetChild(t: nat, name: string)
    | AddChild(t: nat, name: string)
    | SaveIndex(t: nat)
    | RemoveChild(t: nat, name: string)

  function Idle(): Thread {
    Thread(None, None, None)
  }

  // A thread that added a dentry saves it next.
  ghost predicate Enabled(s: State, e: Step) {
    && e.t < |s.threads|
    && var h := s.threads[e.t];
       match e {
         case Allocate(_) => h.added.None?
         case GetDentry(_, _) => h.added.None?
         case GetChild(_, _) => h.added.None? && h.at.Some? && h.at.value < |s.objs|
         case AddChild(_, _) => h.added.None? && h.at.Some? && h.at.value < |s.objs| && h.ino.Some?
         case SaveIndex(_) => h.added.Some? && h.added.value < |s.objs|
         case RemoveChild(_, _) => h.added.None? && h.at.Some? && h.at.value < |s.objs|
       }
  }

  function WithThread(s: State, t: nat, h: Thread): State
    requires t < |s.threads|
  {
    s.(threads := s.threads[t := h])
  }

  function Next(s: State, e: Step): State
    requires Enabled(s, e)
  {
    var h := s.threads[e.t];
    match e {
      case Allocate(t) =>
        WithThread(s, t, h.(ino := Some(s.next))).(next := s.next + 1)
      case GetDentry(t, ino) =>
        var slot := if ino in s.index then s.index[ino] else None;
        WithThread(s, t, h.(at := slot)).(index := s.index[ino := slot])
      case GetChild(t, name) =>
        var children := s.objs[h.at.value].children;
        WithThread(s, t, h.(at := if name in children then Some(children[name]) else None))
      case AddChild(t, name) =>
        var p, c := h.at.value, |s.objs|;
        WithThread(s, t, h.(ino := None, added := Some(c)))
          .(objs := s.objs[p := s.objs[p].(children := s.objs[p].children[name := c])]
                    + [Obj(h.ino.value, name, p, map[])])
      case SaveIndex(t) =>
        var c := h.added.value;
        WithThread(s, t, h.(at := Some(c), added := None)).(index := s.index[s.objs[c].ino := Some(c)])
      case RemoveChild(t, name) =>
        var p := h.at.value;
        s.(objs := s.objs[p := s.objs[p].(children := s.objs[p].children - {name})])
    }
  }

  // The root is made and saved before there are threads.
  function Init(n: nat): State {
    State(ROOT + 1, [Obj(ROOT, "", TOP, map[])], map[ROOT := Some(TOP)], seq(n, _ => Idle()))
  }

  ghost predicate Run(s: State, es: seq<Step>, r: State)
    decreases |es|
  {
    if es == [] then r == s else Enabled(s, es[0]) && Run(Next(s, es[0]), es[1..], r)
  }

  // ---- The invariant -----------------------------------------------------------------

  ghost predicate Owns(s: State, t: nat, p: Ptr) {
    t < |s.threads| && s.threads[t].added == Some(p)
  }

  ghost predicate Holds(s: State, t: nat, i: InodeID) {
    t < |s.threads| && s.threads[t].ino == Some(i)
  }

  ghost predicate Indexed(s: State, p: Ptr) {
    p < |s.objs| && s.objs[p].ino in s.index && s.index[s.objs[p].ino] == Some(p)
  }

  // Ids are unique: no two dentries have the same, no two threads hold the
  // same, and an id in hand is not in use yet.
  ghost predicate IdsOk(s: State) {
    && (forall p :: 0 <= p < |s.objs| ==> s.objs[p].ino < s.next)
    && (forall p, q :: 0 <= p < q < |s.objs| ==> s.objs[p].ino != s.objs[q].ino)
    && (forall t: nat, i: InodeID :: Holds(s, t, i) ==>
          i < s.next && forall p :: 0 <= p < |s.objs| ==> s.objs[p].ino != i)
    && (forall t: nat, u: nat, i: InodeID :: Holds(s, t, i) && Holds(s, u, i) ==> t == u)
  }

  // A slot points to the dentry of its id, if to any.
  ghost predicate SlotsOk(s: State) {
    forall i :: i in s.index && s.index[i].Some? ==>
      s.index[i].value < |s.objs| && s.objs[s.index[i].value].ino == i
  }

  // A dentry is either in the index or in the hands of exactly one thread.
  ghost predicate OwnersOk(s: State) {
    && (forall p :: 0 <= p < |s.objs| ==> Indexed(s, p) || exists t: nat :: Owns(s, t, p))
    && (forall t: nat, p: Ptr :: Owns(s, t, p) ==> p < |s.objs| && !Indexed(s, p))
    && (forall t: nat, u: nat, p: Ptr :: Owns(s, t, p) && Owns(s, u, p) ==> t == u)
  }

  // Children are younger than their parents, point back at them and are kept
  // under their names; threads work in dentries that exist.
  ghost predicate ShapeOk(s: State) {
    && |s.objs| > 0
    && (forall p, n :: 0 <= p < |s.objs| && n in s.objs[p].children ==>
          var c := s.objs[p].children[n];
          p < c < |s.objs| && s.objs[c].parent == p && s.objs[c].name == n)
    && (forall t :: 0 <= t < |s.threads| && s.threads[t].at.Some? ==> s.threads[t].at.value < |s.objs|)
  }

  ghost predicate Inv(s: State) {
    IdsOk(s) && SlotsOk(s) && OwnersOk(s) && ShapeOk(s)
  }

  lemma InitInv(n: nat)
    ensures Inv(Init(n))
  {
    assert Indexed(Init(n), TOP);
  }

  lemma StepIds(s: State, e: Step)
    requires Inv(s) && Enabled(s, e)
    ensures IdsOk(Next(s, e))
  {
    var r := Next(s, e);
    forall t: nat, i: InodeID | Holds(r, t, i)
      ensures i < r.next && forall p :: 0 <= p < |r.objs| ==> r.objs[p].ino != i
      ensures forall u: nat :: Holds(r, u, i) ==> t == u
    {
      assert Holds(s, t, i) || (e.Allocate? && e.t == t && i == s.next);
      forall u: nat | Holds(r, u, i) ensures t == u {
        assert Holds(s, u, i) || (e.Allocate? && e.t == u && i == s.next);
      }
      if e.AddChild? { assert Holds(s, e.t, s.threads[e.t].ino.value); }
    }
    if e.AddChild? { assert Holds(s, e.t, s.threads[e.t].ino.value); }
  }

  lemma StepSlots(s: State, e: Step)
    requires Inv(s) && Enabled(s, e)
    ensures SlotsOk(Next(s, e)) && ShapeOk(Next(s, e))
  {}

  // No section changes a slot that is not NULL.
  lemma SlotKept(s: State, e: Step, i: InodeID)
    requires Inv(s) && Enabled(s, e) && i in s.index && s.index[i].Some?
    ensures i in Next(s, e).index && Next(s, e).index[i] == s.index[i]
  {
    if e.SaveIndex? {
      var c := s.threads[e.t].added.value;
      assert Owns(s, e.t, c);
      if s.objs[c].ino == i { assert Indexed(s, c); }
    }
  }

  lemma StepOwners(s: State, e: Step)
    requires Inv(s) && Enabled(s, e)
    ensures OwnersOk(Next(s, e))
  {
    var r := Next(s, e);
    forall p | 0 <= p < |r.objs| ensures Indexed(r, p) || exists t: nat :: Owns(r, t, p) {
      if p == |s.objs| {
        assert Owns(r, e.t, p);
      } else if Indexed(s, p) {
        SlotKept(s, e, s.objs[p].ino);
      } else {
        var t: nat :| Owns(s, t, p);
        if e.SaveIndex? && t == e.t { assert Indexed(r, p); } else { assert Owns(r, t, p); }
      }
    }
    forall t: nat, p: Ptr | Owns(r, t, p)
      ensures p < |r.objs| && !Indexed(r, p)
      ensures forall u: nat :: Owns(r, u, p) ==> t == u
    {
      assert Owns(s, t, p) || (e.AddChild? && e.t == t && p == |s.objs|);
      forall u: nat | Owns(r, u, p) ensures t == u {
        assert Owns(s, u, p) || (e.AddChild? && e.t == u && p == |s.objs|);
      }
      if e.SaveIndex? { assert Owns(s, e.t, s.threads[e.t].added.value); }
    }
  }

  lemma {:induction false} RunInv(s: State, es: seq<Step>, r: State)
    requires Inv(s) && Run(s, es, r)
    ensures Inv(r)
    decreases |es|
  {
    if es != [] {
      StepIds(s, es[0]);
      StepSlots(s, es[0]);
      StepOwners(s, es[0]);
      RunInv(Next(s, es[0]), es[1..], r);
    }
  }

  // Over a whole run, a slot that is not NULL stays what it is.
  lemma {:induction false} SlotsForLife(s: State, es: seq<Step>, r: State, i: InodeID)
    requires Inv(s) && Run(s, es, r) && i in s.index && s.index[i].Some?
    ensures i in r.index && r.index[i] == s.index[i]
    decreases |es|
  {
    if es != [] {
      SlotKept(s, es[0], i);
      RunInv(s, [es[0]], Next(s, es[0]));
      SlotsForLife(Next(s, es[0]), es[1..], r, i);
    }
  }

  // ---- The tree ------------------------------------------------------------------------

  // Reached from the root through children.
  ghost predicate Attached(s: State, p: Ptr)
    decreases p
  {
    p == TOP
    || (p < |s.objs| && s.objs[p].parent < p && Attached(s, s.objs[p].parent)
        && s.objs[p].name in s.objs[s.objs[p].parent].children
        && s.objs[s.objs[p].parent].children[s.objs[p].name] == p)
  }

  // In every run a lookup of the id of an attached dentry finds it, unless one
  // thread, and only one, is about to save it.
  lemma AttachedIsIndexed(n: nat, es: seq<Step>, s: State, p: Ptr)
    requires Run(Init(n), es, s) && Attached(s, p)
    ensures p < |s.objs| && (!Indexed(s, p) <==> exists t: nat :: Owns(s, t, p))
    ensures forall t: nat, u: nat :: Owns(s, t, p) && Owns(s, u, p) ==> t == u
  {
    InitInv(n);
    RunInv(Init(n), es, s);
  }

  ghost predicate Quiet(s: State) {
    forall t :: 0 <= t < |s.threads| ==> s.threads[t].added.None?
  }

  // Between operations the whole tree is in the index, under distinct ids.
  lemma QuietTreeIsIndexed(n: nat, es: seq<Step>, s: State)
    requires Run(Init(n), es, s) && Quiet(s)
    ensures forall p :: 0 <= p < |s.objs| && Attached(s, p) ==> Indexed(s, p)
    ensures forall p, q :: 0 <= p < |s.objs| && 0 <= q < |s.objs| && s.objs[p].ino == s.objs[q].ino ==> p == q
  {
    InitInv(n);
    RunInv(Init(n), es, s);
  }

  // ---- When adding a child takes another one away ---------------------------------------

  lemma {:induction false} StillAttached(s: State, e: Step, p: Ptr)
    requires Inv(s) && Enabled(s, e) && e.AddChild? && Attached(s, p)
    requires e.name !in s.objs[s.threads[e.t].at.value].children || !Attached(s, s.threads[e.t].at.value)
    ensures Attached(Next(s, e), p)
    decreases p
  {
    if p != TOP { StillAttached(s, e, s.objs[p].parent); }
  }

  ghost predicate KeepsAttached(s: State, r: State) {
    forall p: Ptr :: Attached(s, p) ==> Attached(r, p)
  }

  // Adding a child keeps every attached dentry attached exactly when its name
  // is free, or nobody can reach the directory any more.
  lemma AddKeepsAttached(s: State, e: Step)
    requires Inv(s) && Enabled(s, e) && e.AddChild?
    ensures KeepsAttached(s, Next(s, e))
            <==> (e.name !in s.objs[s.threads[e.t].at.value].children || !Attached(s, s.threads[e.t].at.value))
  {
    var d := s.threads[e.t].at.value;
    if e.name !in s.objs[d].children || !Attached(s, d) {
      forall p: Ptr | Attached(s, p) ensures Attached(Next(s, e), p) { StillAttached(s, e, p); }
    } else {
      var c := s.objs[d].children[e.name];
      assert Attached(s, c) && d < c;
      assert Next(s, e).objs[c].parent == d && Next(s, e).objs[c].name == e.name;
      assert Next(s, e).objs[d].children[e.name] == |s.objs| != c;
      assert !Attached(Next(s, e), c);
      assert !KeepsAttached(s, Next(s, e));
    }
  }

  // ---- What each section does ---------------------------------------------------------------

  // p is x, or hangs below it.
  ghost predicate Under(s: State, x: Ptr, p: Ptr)
    decreases p
  {
    p == x || (p < |s.objs| && s.objs[p].parent < p && Under(s, x, s.objs[p].parent))
  }

  // The directory has a child of this name, and p is that child or below it.
  ghost predicate UnderChild(s: State, d: Ptr, name: string, p: Ptr)
    requires d < |s.objs|
  {
    name in s.objs[d].children && Under(s, s.objs[d].children[name], p)
  }

  // A removal takes the child of that name, and what is below it, off the tree,
  // and no other dentry.
  lemma {:induction false} RemoveDetaches(s: State, e: Step, p: Ptr)
    requires Inv(s) && Enabled(s, e) && e.RemoveChild?
    ensures Attached(Next(s, e), p) <==> Attached(s, p) && !UnderChild(s, s.threads[e.t].at.value, e.name, p)
    decreases p
  {
    if p != TOP && p < |s.objs| && s.objs[p].parent < p { RemoveDetaches(s, e, s.objs[p].parent); }
  }

  // An addition attaches the new dentry if its directory is attached, and takes
  // off what had the name, with all below it.
  lemma {:induction false} AddAttaches(s: State, e: Step, p: Ptr)
    requires Inv(s) && Enabled(s, e) && e.AddChild?
    ensures Attached(Next(s, e), p)
            <==> if p == |s.objs| then Attached(s, s.threads[e.t].at.value)
                 else Attached(s, p) && !UnderChild(s, s.threads[e.t].at.value, e.name, p)
    decreases p
  {
    var r := Next(s, e);
    if p == |s.objs| {
      var d := s.threads[e.t].at.value;
      assert r.objs[p].parent == d && r.objs[p].name == e.name && r.objs[d].children[e.name] == p;
      AddAttaches(s, e, d);
      if UnderChild(s, d, e.name, d) { UnderIsLater(s, s.objs[d].children[e.name], d); }
    } else if p != TOP && p < |s.objs| && s.objs[p].parent < p {
      AddAttaches(s, e, s.objs[p].parent);
    }
  }

  lemma {:induction false} UnderIsLater(s: State, x: Ptr, p: Ptr)
    requires Under(s, x, p)
    ensures x <= p
    decreases p
  {
    if p != x { UnderIsLater(s, x, s.objs[p].parent); }
  }

  // The other sections leave the dentries as they are; what was allocated keeps
  // its id, its name and its parent; and no section changes another thread.
  lemma SectionsKeep(s: State, e: Step)
    requires Inv(s) && Enabled(s, e)
    ensures !e.AddChild? && !e.RemoveChild? ==> Next(s, e).objs == s.objs
    ensures |Next(s, e).objs| == if e.AddChild? then |s.objs| + 1 else |s.objs|
    ensures forall p :: 0 <= p < |s.objs| ==>
              && Next(s, e).objs[p].ino == s.objs[p].ino && Next(s, e).objs[p].name == s.objs[p].name
              && Next(s, e).objs[p].parent == s.objs[p].parent
    ensures |Next(s, e).threads| == |s.threads|
    ensures forall t :: 0 <= t < |s.threads| && t != e.t ==> Next(s, e).threads[t] == s.threads[t]
  {}

  // get_child finds the child of that name, and nothing if there is none.
  lemma ChildFound(s: State, e: Step, c: Ptr)
    requires Inv(s) && Enabled(s, e) && e.GetChild?
    ensures var d := s.threads[e.t].at.value;
            Next(s, e).threads[e.t].at == Some(c) <==> e.name in s.objs[d].children && s.objs[d].children[e.name] == c
    ensures Next(s, e).threads[e.t].at == Some(c) && Attached(s, s.threads[e.t].at.value) ==>
              Attached(s, c) && s.objs[c].name == e.name && s.objs[c].parent == s.threads[e.t].at.value
  {}

  // get_dentry finds the dentry that is in the index under that id, and nothing
  // if there is none.
  lemma DentryFound(s: State, e: Step, p: Ptr)
    requires Inv(s) && Enabled(s, e) && e.GetDentry?
    ensures Next(s, e).threads[e.t].at == Some(p) <==> Indexed(s, p) && s.objs[p].ino == e.ino
  {}

  // An id that is handed out is in nobody's hands and in no dentry.
  lemma AllocatedId(s: State, e: Step)
    requires Inv(s) && Enabled(s, e) && e.Allocate?
    ensures exists i :: Next(s, e).threads[e.t].ino == Some(i) && i < Next(s, e).next
                        && (forall p :: 0 <= p < |s.objs| ==> s.objs[p].ino != i)
                        && (forall t: nat :: !Holds(s, t, i))
  {
    var i := s.next;
    forall t: nat ensures !Holds(s, t, i) {}
    assert Next(s, e).threads[e.t].ino == Some(i);
  }

  // A dentry that was saved is what every later lookup of its id finds.
  lemma SavedIsFound(s: State, e: Step, es: seq<Step>, r: State, f: Step)
    requires Inv(s) && Enabled(s, e) && e.SaveIndex? && Run(Next(s, e), es, r)
    requires Enabled(r, f) && f.GetDentry? && f.ino == s.objs[s.threads[e.t].added.value].ino
    ensures Next(r, f).threads[f.t].at == s.threads[e.t].added
  {
    RunInv(s, [e], Next(s, e));
    SlotsForLife(Next(s, e), es, r, f.ino);
  }

  // The dentry that a section adds has the id that the thread had taken.
  lemma AddedDentry(s: State, e: Step)
    requires Inv(s) && Enabled(s, e) && e.AddChild?
    ensures var r, d, c := Next(s, e), s.threads[e.t].at.value, |s.objs|;
            && r.threads[e.t].added == Some(c) && r.threads[e.t].ino == None
            && r.objs[c].ino == s.threads[e.t].ino.value && r.objs[c].children == map[]
            && e.name in r.objs[d].children && r.objs[d].children[e.name] == c && r.objs[c].parent == d
  {}

  lemma {:induction false} RunOn(s: State, es: seq<Step>, r: State, e: Step)
    requires Run(s, es, r) && Enabled(r, e)
    ensures Run(s, es + [e], Next(r, e))
    decreases |es|
  {
    if es == [] {
      assert [e][0] == e && [e][1..] == [];
    } else {
      RunOn(Next(s, es[0]), es[1..], r, e);
      assert (es + [e])[0] == es[0] && (es + [e])[1..] == es[1..] + [e];
    }
  }

  lemma LookUpRoot(n: nat, es: seq<Step>, s: State, t: nat) returns (fs: seq<Step>, r: State)
    requires Run(Init(n), es, s) && t < |s.threads| && s.threads[t].added.None?
    requires ROOT in s.index && s.index[ROOT] == Some(TOP)
    ensures Run(Init(n), fs, r) && r == s.(threads := s.threads[t := s.threads[t].(at := Some(TOP))])
  {
    fs, r := RunOnce(n, es, s, GetDentry(t, ROOT));
    assert r.index == s.index;
  }

  // A thread that looks for a new name in the root, goes back to the root and
  // takes an id, with nothing in between.
  lemma OneMisses(n: nat, es: seq<Step>, s: State, t: nat) returns (fs: seq<Step>, r: State)
    requires Run(Init(n), es, s) && t < |s.threads| && s.threads[t] == Idle()
    requires s.objs == [Obj(ROOT, "", TOP, map[])] && s.index == map[ROOT := Some(TOP)]
    ensures Run(Init(n), fs, r)
    ensures r == s.(next := s.next + 1, threads := s.threads[t := Thread(Some(TOP), Some(s.next), None)])
  {
    fs, r := LookUpRoot(n, es, s, t);
    fs, r := RunOnce(n, fs, r, GetChild(t, "a"));
    assert r == s.(threads := s.threads[t := Idle()]);
    fs, r := LookUpRoot(n, fs, r, t);
    fs, r := RunOnce(n, fs, r, Allocate(t));
  }

  lemma OneAdds(n: nat, es: seq<Step>, s: State, t: nat, i: InodeID) returns (fs: seq<Step>, r: State)
    requires Run(Init(n), es, s) && t < |s.threads| && s.threads[t] == Thread(Some(TOP), Some(i), None) && |s.objs| > 0
    ensures Run(Init(n), fs, r)
    ensures var c := |s.objs|;
            && r.objs == s.objs[TOP := s.objs[TOP].(children := s.objs[TOP].children["a" := c])]
                         + [Obj(i, "a", TOP, map[])]
            && r.index == s.index[i := Some(c)] && r.threads == s.threads[t := Thread(Some(c), None, None)]
  {
    fs, r := RunOnce(n, es, s, AddChild(t, "a"));
    fs, r := RunOnce(n, fs, r, SaveIndex(t));
  }

  lemma RunOnce(n: nat, es: seq<Step>, s: State, e: Step) returns (fs: seq<Step>, r: State)
    requires Run(Init(n), es, s) && Enabled(s, e)
    ensures Run(Init(n), fs, r) && r == Next(s, e)
  {
    RunOn(Init(n), es, s, e);
    fs, r := es + [e], Next(s, e);
  }

  lemma BothMiss(n: nat) returns (es: seq<Step>, s: State)
    requires n >= 2
    ensures Run(Init(n), es, s) && |s.threads| == n
    ensures s.objs == [Obj(ROOT, "", TOP, map[])] && s.index == map[ROOT := Some(TOP)]
    ensures s.threads[0] == Thread(Some(TOP), Some(2), None) && s.threads[1] == Thread(Some(TOP), Some(3), None)
    ensures forall t :: 2 <= t < n ==> s.threads[t] == Idle()
  {
    es, s := OneMisses(n, [], Init(n), 0);
    es, s := OneMisses(n, es, s, 1);
  }

  // Looking up and adding are two sections: two threads that both miss the
  // same name add it twice, and the first dentry is lost to the tree, though
  // its id still leads to it.
  lemma RaceReplacesChild(n: nat) returns (es: seq<Step>, s: State)
    requires n >= 2
    ensures Run(Init(n), es, s) && Quiet(s)
    ensures Indexed(s, 1) && !Attached(s, 1)
    ensures Indexed(s, 2) && Attached(s, 2) && s.objs[1].name == s.objs[2].name
  {
    es, s := BothMiss(n);
    es, s := OneAdds(n, es, s, 0, 2);
    es, s := OneAdds(n, es, s, 1, 3);
    Raced(s);
  }

  lemma Raced(s: State)
    requires |s.objs| == 3 && "a" in s.objs[TOP].children && s.objs[TOP].children["a"] == 2
    requires s.objs[1] == Obj(2, "a", TOP, map[]) && s.objs[2] == Obj(3, "a", TOP, map[])
    requires 2 in s.index && s.index[2] == Some(1) && 3 in s.index && s.index[3] == Some(2)
    ensures Indexed(s, 1) && !Attached(s, 1)
    ensures Indexed(s, 2) && Attached(s, 2) && s.objs[1].name == s.objs[2].name
  {
    assert Attached(s, TOP);
    assert s.objs[2].parent == TOP && s.objs[1].parent == TOP;
  }
}

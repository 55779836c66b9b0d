// Inputs that show what the code does not do. Each is a history of a mount that
// starts cold.
module Witnesses {
  import opened Basics
  import opened Listing
  import opened DentryTree
  import opened Merge
  import opened Sweep
  import opened Refresh
  import opened Paths
  import opened Lookup
  import opened Coherence
  import opened Level
  import opened History
  import opened Attributes
  import opened FileSizes
  import Handles

  lemma ColdFacts()
    ensures Tree(ColdCache()) && IsDirMode(ColdCache().nodes[ROOT].mode)
    ensures DirPrefix(ColdCache(), ROOT) == "" && ColdCache().nodes[ROOT].children == map[]
  {
    ColdTree();
    assert Names(ColdCache(), ROOT) == [];
  }

  // The first refresh of the root makes it agree with the bucket.
  lemma FirstRefresh(b: Bucket, max: nat, ttl: Time) returns (s: Cache, m: Cache)
    requires max >= 1
    ensures RefreshedWith(ColdCache(), s, ROOT, b, max, ttl, m)
    ensures Tree(s) && ROOT in s.nodes && DirPrefix(s, ROOT) == "" && Coherent(State(s, b), ROOT)
    ensures IsDirMode(s.nodes[ROOT].mode) && s.nodes[ROOT].ttl == ttl
  {
    var c := ColdCache();
    ColdFacts();
    s, m := RefreshHappens(c, ROOT, b, max, ttl);
    RefreshTree(c, s, ROOT, b, max, ttl, m);
    RefreshedPath(c, s, ROOT, b, max, ttl, m);
    RefreshCoherent(c, s, ROOT, b, max, ttl, m);
  }

  lemma RootKind(s: Cache, b: Bucket, n: string)
    requires Tree(s) && Coherent(State(s, b), ROOT) && DirPrefix(s, ROOT) == "" && ValidName(n)
    ensures ChildKind(s, ROOT, n) == KindAt(Keys(b), "", n)
  {
    assert Agrees(State(s, b), ROOT, n);
  }

  // ---- Histories ---------------------------------------------------------------------------

  // What happened since the mount started with this bucket, and where it led.
  datatype Past = Past(states: seq<State>, events: seq<Event>)

  ghost predicate Leads(h: Past, b: Bucket, s: State, timeout: Time) {
    && Happened(h.states, h.events, timeout)
    && h.states[0] == State(ColdCache(), b) && h.states[|h.events|] == s
  }

  lemma Begin(b: Bucket, timeout: Time) returns (h: Past)
    ensures Leads(h, b, State(ColdCache(), b), timeout) && h.events == []
  {
    h := Past([State(ColdCache(), b)], []);
  }

  lemma GoOn(h: Past, b: Bucket, s: State, e: Event, t: State, timeout: Time) returns (h': Past)
    requires Leads(h, b, s, timeout) && Follows(s, e, t, timeout)
    ensures Leads(h', b, t, timeout) && h'.events == h.events + [e] && h'.states == h.states + [t]
  {
    h' := Past(h.states + [t], h.events + [e]);
    forall i | 0 <= i < |h'.events| ensures StepAt(h'.states, h'.events, i, timeout) {
      if i < |h.events| { assert StepAt(h.states, h.events, i, timeout); }
    }
  }

  // A refresh as the next event: the directory is not complete, or not live.
  lemma Refreshing(h: Past, b: Bucket, s: State, d: InodeID, max: nat, now: Time, ttl: Time, timeout: Time,
                   t: Cache, m: Cache)
    returns (h': Past)
    requires Leads(h, b, s, timeout) && d in s.cache.nodes && IsDirMode(s.cache.nodes[d].mode)
    requires !Live(s.cache, d, now) && ttl == now + timeout
    requires RefreshedWith(s.cache, t, d, s.bucket, max, ttl, m)
    ensures Leads(h', b, State(t, s.bucket), timeout) && h'.events == h.events + [Refresh(d, max, now, ttl, m)]
    ensures h'.states == h.states + [State(t, s.bucket)]
  {
    h' := GoOn(h, b, s, Refresh(d, max, now, ttl, m), State(t, s.bucket), timeout);
  }

  // A change of the bucket by others as the next event.
  lemma Changing(h: Past, b: Bucket, s: State, objects: map<Key, Bytes>, timeout: Time) returns (h': Past)
    requires Leads(h, b, s, timeout)
    ensures Leads(h', b, s.(bucket := s.bucket.(objects := objects)), timeout)
    ensures h'.events == h.events + [Outside(objects)]
  {
    h' := GoOn(h, b, s, Outside(objects), s.(bucket := s.bucket.(objects := objects)), timeout);
  }

  // ---- A directory that others removed stays ---------------------------------------------

  // The root is refreshed while the bucket holds "e/f", and again, when its time
  // is up, after others removed it: "e" is still there.
  lemma RemovedDirectoryStays(b: Bucket, max: nat, timeout: Time) returns (h: Past, z: State)
    requires Keys(b) == {"e/f"} && NoDirModes(b) && max >= 1
    ensures Leads(h, b, z, timeout) && |h.events| == 3 && RefreshesRoot(h.events[0], 0)
    ensures h.events[1] == Outside(map[]) && RefreshesRoot(h.events[2], timeout + 1)
    ensures Keys(z.bucket) == {} && ChildKind(z.cache, ROOT, "e") == Some(Dir)
  {
    h := Begin(b, timeout);
    var s;
    h, s := ListE(h, b, max, timeout);
    h := Changing(h, b, s, map[], timeout);
    h, z := ListAgain(h, b, s.(bucket := s.bucket.(objects := map[])), max, timeout);
  }

  predicate RefreshesRoot(e: Event, now: Time) {
    e.Refresh? && e.d == ROOT && e.now == now
  }

  // The first refresh of the root shows "e", and marks it.
  lemma ListE(h: Past, b: Bucket, max: nat, timeout: Time) returns (h': Past, s: State)
    requires Leads(h, b, State(ColdCache(), b), timeout) && Keys(b) == {"e/f"} && max >= 1
    ensures Leads(h', b, s, timeout) && |h'.events| == |h.events| + 1
    ensures h'.events[..|h.events|] == h.events && RefreshesRoot(h'.events[|h.events|], 0)
    ensures s.bucket == b && Tree(s.cache) && DirPrefix(s.cache, ROOT) == "" && IsDirMode(s.cache.nodes[ROOT].mode)
    ensures s.cache.nodes[ROOT].ttl == timeout
    ensures ChildKind(s.cache, ROOT, "e") == Some(Dir) && Marked(s.cache, ROOT, "e")
    ensures var x := s.cache.nodes[ROOT].children["e"];
            s.cache.nodes[x].children == map[] && !s.cache.nodes[x].complete
  {
    var t, m := FirstRefresh(b, max, timeout);
    s := State(t, b);
    EntriesOfE();
    RootKind(t, b, "e");
    ColdFacts();
    SweptMarked(ColdCache(), t, b, max, timeout, m, "e");
    NewChildBare(ColdCache(), t, ROOT, b, max, timeout, m, "e");
    h' := Refreshing(h, b, State(ColdCache(), b), ROOT, max, 0, timeout, timeout, t, m);
  }

  // Another refresh of the root keeps a marked directory, listed or not.
  lemma ListAgain(h: Past, b: Bucket, s: State, max: nat, timeout: Time) returns (h': Past, z: State)
    requires Leads(h, b, s, timeout) && Tree(s.cache) && IsDirMode(s.cache.nodes[ROOT].mode) && max >= 1
    requires ChildKind(s.cache, ROOT, "e") == Some(Dir) && Marked(s.cache, ROOT, "e")
    requires s.cache.nodes[ROOT].ttl == timeout
    ensures Leads(h', b, z, timeout) && |h'.events| == |h.events| + 1
    ensures h'.events[..|h.events|] == h.events && RefreshesRoot(h'.events[|h.events|], timeout + 1)
    ensures z.bucket == s.bucket && ChildKind(z.cache, ROOT, "e") == Some(Dir)
  {
    var now, ttl := timeout + 1, timeout + 1 + timeout;
    var t, m := RefreshHappens(s.cache, ROOT, s.bucket, max, ttl);
    z := State(t, s.bucket);
    RefreshedNames(s.cache, t, ROOT, s.bucket, max, ttl, m, "e");
    h' := Refreshing(h, b, s, ROOT, max, now, ttl, timeout, t, m);
  }

  // What the bucket {"e/f"} lists.
  lemma EntriesOfE()
    ensures KindAt({"e/f"}, "", "e") == Some(Dir) && KindAt({"e/f"}, "e/", "f") == Some(File)
    ensures forall n :: ValidName(n) && KindAt({"e/f"}, "e/", n).Some? ==> n == "f"
  {
    assert "e/" <= "e/f" && "" + "e" + "/" == "e/" && "" + "e" == "e" && "e/" + "f" == "e/f";
    assert AnyUnder({"e/f"}, "" + "e" + "/");
    forall n | ValidName(n) && KindAt({"e/f"}, "e/", n).Some? ensures n == "f" {
      if "e/" + n == "e/f" { assert ("e/" + n)[2..] == n && "e/f"[2..] == "f"; }
    }
  }

  // ---- A refresh hides a file ----------------------------------------------------------------

  // The root is refreshed, then its directory "e", then, when its time is up, the
  // root again, while the bucket holds "e/f" all along. After that "e" is complete
  // and live without the file.
  lemma RefreshHidesFile(b: Bucket, max: nat, timeout: Time) returns (h: Past, z: State, x: InodeID)
    requires Keys(b) == {"e/f"} && NoDirModes(b) && max >= 1
    ensures Leads(h, b, z, timeout) && z.bucket == b && |h.events| == 3 && RefreshesRoot(h.events[0], 0)
    ensures h.events[1].Refresh? && h.events[1].d == x && RefreshesRoot(h.events[2], timeout + 1)
    ensures x in z.cache.nodes && FullPath(z.cache, x) == "e"
    ensures Live(z.cache, x, timeout + 1) && z.cache.nodes[x].children == map[] && !Coherent(z, x)
  {
    h := Begin(b, timeout);
    var s, t;
    h, s := ListE(h, b, max, timeout);
    x := s.cache.nodes[ROOT].children["e"];
    h, t := ListF(h, b, s, x, max, timeout);
    SoundEnd(h, b, t, timeout);
    h, z := HideF(h, b, t, x, max, timeout);
  }

  lemma SoundEnd(h: Past, b: Bucket, s: State, timeout: Time)
    requires Leads(h, b, s, timeout) && NoDirModes(b)
    ensures Sound(s)
  {
    ColdStart(b);
    EveryHistory(h.states, h.events, timeout, 0, |h.events|);
  }

  // Refreshing "e" lists the file.
  lemma ListF(h: Past, b: Bucket, s: State, x: InodeID, max: nat, timeout: Time) returns (h': Past, t: State)
    requires Leads(h, b, s, timeout) && Tree(s.cache) && s.bucket == b && Keys(b) == {"e/f"} && max >= 1
    requires DirPrefix(s.cache, ROOT) == "" && ROOT in s.cache.nodes && "e" in s.cache.nodes[ROOT].children
    requires s.cache.nodes[ROOT].children["e"] == x && x in s.cache.nodes
    requires IsDirMode(s.cache.nodes[x].mode) && s.cache.nodes[x].children == map[] && !s.cache.nodes[x].complete
    ensures Leads(h', b, t, timeout) && |h'.events| == |h.events| + 1
    ensures h'.events[..|h.events|] == h.events && h'.events[|h.events|].Refresh? && h'.events[|h.events|].d == x
    ensures t.bucket == b && Tree(t.cache) && DirPrefix(t.cache, ROOT) == "" && x in t.cache.nodes && x != ROOT
    ensures t.cache.nodes[ROOT] == s.cache.nodes[ROOT] && IsDirMode(t.cache.nodes[x].mode)
    ensures t.cache.nodes[x].children.Keys == {"f"} && ChildKind(t.cache, x, "f") == Some(File)
  {
    ChildPath(s.cache, x);
    var u, m := RefreshHappens(s.cache, x, b, max, timeout);
    t := State(u, b);
    ListedBelow(s.cache, u, x, b, max, timeout, m);
    h' := Refreshing(h, b, s, x, max, 0, timeout, timeout, u, m);
  }

  // The second refresh of the root drops it.
  lemma HideF(h: Past, b: Bucket, t: State, x: InodeID, max: nat, timeout: Time) returns (h': Past, z: State)
    requires Leads(h, b, t, timeout) && Sound(t) && t.bucket == b && Keys(b) == {"e/f"} && max >= 1
    requires DirPrefix(t.cache, ROOT) == "" && ROOT in t.cache.nodes && "e" in t.cache.nodes[ROOT].children
    requires t.cache.nodes[ROOT].children["e"] == x && x in t.cache.nodes && IsDirMode(t.cache.nodes[x].mode)
    requires t.cache.nodes[x].children.Keys == {"f"} && ChildKind(t.cache, x, "f") == Some(File)
    requires t.cache.nodes[ROOT].ttl == timeout
    ensures Leads(h', b, z, timeout) && |h'.events| == |h.events| + 1
    ensures h'.events[..|h.events|] == h.events && RefreshesRoot(h'.events[|h.events|], timeout + 1)
    ensures z.bucket == b && x in z.cache.nodes && FullPath(z.cache, x) == "e"
    ensures Live(z.cache, x, timeout + 1) && z.cache.nodes[x].children == map[] && !Coherent(z, x)
  {
    var now, ttl := timeout + 1, timeout + 1 + timeout;
    var u, m := RefreshHappens(t.cache, ROOT, b, max, ttl);
    z := State(u, b);
    HiddenF(t.cache, u, b, x, max, ttl, m);
    h' := Refreshing(h, b, t, ROOT, max, now, ttl, timeout, u, m);
  }

  lemma HiddenF(c: Cache, u: Cache, b: Bucket, x: InodeID, max: nat, ttl: Time, m: Cache)
    requires Tree(c) && FilesClear(c) && Keys(b) == {"e/f"} && RefreshedWith(c, u, ROOT, b, max, ttl, m)
    requires DirPrefix(c, ROOT) == "" && ROOT in c.nodes && "e" in c.nodes[ROOT].children
    requires c.nodes[ROOT].children["e"] == x && x in c.nodes && IsDirMode(c.nodes[x].mode)
    requires c.nodes[x].children.Keys == {"f"} && ChildKind(c, x, "f") == Some(File)
    ensures x in u.nodes && FullPath(u, x) == "e"
    ensures u.nodes[x].complete && u.nodes[x].ttl == ttl && u.nodes[x].children == map[] && !Coherent(State(u, b), x)
  {
    EntriesOfE();
    ChildPath(c, x);
    OneFile(c, x);
    AllBelowRoot(c, x);
    RefreshedNames(c, u, ROOT, b, max, ttl, m, "e");
    RefreshTree(c, u, ROOT, b, max, ttl, m);
    ChildNames(u, ROOT, "e");
    UnmarkedHidden(c, u, ROOT, b, max, ttl, m, x, "f");
    RefreshForLife(c, m, ROOT, PagedInfo(b, DirPrefix(c, ROOT), max), ttl);
    LifePath(c, u, x);
  }

  // The path of a child "e" of the root.
  lemma ChildPath(s: Cache, x: InodeID)
    requires Tree(s) && ROOT in s.nodes && DirPrefix(s, ROOT) == ""
    requires "e" in s.nodes[ROOT].children && s.nodes[ROOT].children["e"] == x
    ensures x in s.nodes && x != ROOT && FullPath(s, x) == "e" && DirPrefix(s, x) == "e/"
  {
    ChildNames(s, ROOT, "e");
    ChildPaths(s, ROOT, "e");
    assert "" + "e" == "e" && "e" + "/" == "e/";
  }

  // Refreshing "e" lists the file in it, and leaves the root alone.
  lemma ListedBelow(s: Cache, t: Cache, x: InodeID, b: Bucket, max: nat, ttl: Time, m: Cache)
    requires Tree(s) && Keys(b) == {"e/f"} && DirPrefix(s, ROOT) == "" && RefreshedWith(s, t, x, b, max, ttl, m)
    requires ROOT in s.nodes && "e" in s.nodes[ROOT].children && s.nodes[ROOT].children["e"] == x
    requires x in s.nodes && x != ROOT && s.nodes[x].children == map[] && IsDirMode(s.nodes[x].mode)
    ensures Tree(t) && ROOT in t.nodes && x in t.nodes && t.nodes[ROOT] == s.nodes[ROOT] && DirPrefix(t, ROOT) == ""
    ensures IsDirMode(t.nodes[x].mode) && t.nodes[x].children.Keys == {"f"} && ChildKind(t, x, "f") == Some(File)
  {
    RefreshTree(s, t, x, b, max, ttl, m);
    ChildPath(s, x);
    EntriesOfE();
    assert !Below(s, x, ROOT) by { RootAlone(s, x); }
    assert !Below(m, x, ROOT) by { BelowStable(s, m, x, ROOT); }
    RefreshedNames(s, t, x, b, max, ttl, m, "f");
    forall n | n in t.nodes[x].children ensures n == "f" {
      ChildNames(t, x, n);
      RefreshedNames(s, t, x, b, max, ttl, m, n);
    }
  }

  // A directory whose only child is an unmarked file has no marked child.
  lemma OneFile(t: Cache, x: InodeID)
    requires Tree(t) && FilesClear(t) && x in t.nodes
    requires t.nodes[x].children.Keys == {"f"} && ChildKind(t, x, "f") == Some(File)
    ensures t.nodes[x].children != map[] && MarkedChildren(t, x) == map[]
  {
    ChildNames(t, x, "f");
  }

  // ---- A removal uncovers a directory ---------------------------------------------------------

  // The bucket holds "a" and "a/b". Removing the file leaves a directory "a" in
  // the bucket and nothing in the cache.
  lemma RemovalUncovers(b: Bucket, max: nat, timeout: Time) returns (h: Past, s: State, z: State)
    requires Keys(b) == {"a", "a/b"} && max >= 1
    ensures Leads(h, b, z, timeout) && |h.events| == 2 && h.states[1] == s && h.events[0].Refresh?
    ensures h.events[1] == Mount(Remove(ROOT, "a", 0)) && Coherent(s, ROOT) && !Coherent(z, ROOT)
  {
    h := Begin(b, timeout);
    h, s := ListA(h, b, max, timeout);
    z := AfterRemoval(s, ROOT, "a");
    UncoveredBy(s);
    RemoveNow(s, timeout);
    h := GoOn(h, b, s, Mount(Remove(ROOT, "a", 0)), z, timeout);
  }

  lemma ListA(h: Past, b: Bucket, max: nat, timeout: Time) returns (h': Past, s: State)
    requires Leads(h, b, State(ColdCache(), b), timeout) && Keys(b) == {"a", "a/b"} && max >= 1
    ensures Leads(h', b, s, timeout) && h'.states == h.states + [s] && |h'.events| == |h.events| + 1
    ensures h'.events[..|h.events|] == h.events && h'.events[|h.events|].Refresh?
    ensures s.bucket == b && Tree(s.cache) && DirPrefix(s.cache, ROOT) == "" && IsDirMode(s.cache.nodes[ROOT].mode)
    ensures Coherent(s, ROOT) && ChildKind(s.cache, ROOT, "a") == Some(File)
  {
    var t, m := FirstRefresh(b, max, timeout);
    s := State(t, b);
    RootKind(t, b, "a");
    ColdFacts();
    assert "" + "a" == "a" && KindAt(Keys(b), "", "a") == Some(File);
    h' := Refreshing(h, b, State(ColdCache(), b), ROOT, max, 0, timeout, timeout, t, m);
  }

  // At time 0 nothing is expired.
  lemma RemoveNow(s: State, timeout: Time)
    requires Tree(s.cache) && IsDirMode(s.cache.nodes[ROOT].mode) && RemoveOutcome(s.cache, ROOT, "a") == Removed
    ensures Follows(s, Mount(Remove(ROOT, "a", 0)), AfterRemoval(s, ROOT, "a"), timeout)
  {
    assert FindSpec(s.cache, s.bucket, ROOT, "a", 0, timeout) == s.cache;
    assert s.(cache := s.cache) == s;
  }

  lemma UncoveredBy(s: State)
    requires Tree(s.cache) && IsDirMode(s.cache.nodes[ROOT].mode) && DirPrefix(s.cache, ROOT) == ""
    requires Keys(s.bucket) == {"a", "a/b"} && Coherent(s, ROOT) && ChildKind(s.cache, ROOT, "a") == Some(File)
    ensures RemoveOutcome(s.cache, ROOT, "a") == Removed && !Coherent(AfterRemoval(s, ROOT, "a"), ROOT)
  {
    ChildNames(s.cache, ROOT, "a");
    RemoveCoherent(s, ROOT, "a", ROOT);
    assert "" + "a" == "a" && "" + "a" + "/" == "a/" && "a/" <= "a/b";
    assert "a/b" in Keys(s.bucket) - {"a"};
  }

  // ---- An expired file that others removed stays ------------------------------------------------

  // "f" is looked up, others remove it, and it is looked up again when its time
  // is up: it is still a cached file, with whatever size the empty answer has.
  lemma RemovedFileStays(b: Bucket, timeout: Time) returns (h: Past, z: State)
    requires Keys(b) == {"f"} && NoDirModes(b)
    ensures Leads(h, b, z, timeout)
    ensures h.events == [Mount(Find(ROOT, "f", 0)), Outside(map[]), Mount(Find(ROOT, "f", timeout + 1))]
    ensures Keys(z.bucket) == {} && ChildKind(z.cache, ROOT, "f") == Some(File)
    ensures z.cache.nodes[z.cache.nodes[ROOT].children["f"]].size == b.junk
  {
    h := Begin(b, timeout);
    var d;
    h, d := LookUpF(h, b, timeout);
    h := Changing(h, b, State(d, b), map[], timeout);
    h, z := LookUpAgain(h, b, State(d, b.(objects := map[])), timeout);
  }

  lemma LookUpF(h: Past, b: Bucket, timeout: Time) returns (h': Past, d: Cache)
    requires Leads(h, b, State(ColdCache(), b), timeout) && Keys(b) == {"f"}
    ensures Leads(h', b, State(d, b), timeout) && h'.events == h.events + [Mount(Find(ROOT, "f", 0))]
    ensures Tree(d) && IsDirMode(d.nodes[ROOT].mode) && ChildKind(d, ROOT, "f") == Some(File)
    ensures d.nodes[d.nodes[ROOT].children["f"]].ttl == timeout
    ensures d.nodes[d.nodes[ROOT].children["f"]].mode & !0x1FF == 0x8000
  {
    var c := ColdCache();
    ColdFacts();
    assert "" + "f" == "f" && KindAt(Keys(b), "", "f") == Some(File);
    LookupNewAttributes(c, b, ROOT, "f", 0, timeout, File);
    d := Fetched(c, b, ROOT, "f", timeout);
    FetchedTree(c, b, ROOT, "f", timeout);
    FetchedKind(c, b, ROOT, "f", timeout);
    h' := GoOn(h, b, State(c, b), Mount(Find(ROOT, "f", 0)), State(d, b), timeout);
  }

  lemma LookUpAgain(h: Past, b: Bucket, s: State, timeout: Time) returns (h': Past, z: State)
    requires Leads(h, b, s, timeout) && Keys(s.bucket) == {} && NoDirModes(s.bucket)
    requires Tree(s.cache) && IsDirMode(s.cache.nodes[ROOT].mode) && ChildKind(s.cache, ROOT, "f") == Some(File)
    requires s.cache.nodes[s.cache.nodes[ROOT].children["f"]].ttl == timeout
    ensures Leads(h', b, z, timeout) && h'.events == h.events + [Mount(Find(ROOT, "f", timeout + 1))]
    ensures z.bucket == s.bucket && ChildKind(z.cache, ROOT, "f") == Some(File)
    ensures z.cache.nodes[z.cache.nodes[ROOT].children["f"]].size == s.bucket.junk
  {
    var ttl := timeout + 1 + timeout;
    var u := FindSpec(s.cache, s.bucket, ROOT, "f", timeout + 1, ttl);
    FindTree(s.cache, s.bucket, ROOT, "f", timeout + 1, ttl);
    FindKinds(s.cache, s.bucket, ROOT, "f", timeout + 1, ttl, ROOT, "f");
    FindSize(s.cache, s.bucket, ROOT, "f", timeout + 1, ttl);
    RevalidatedChild(s.cache, s.bucket, timeout + 1, ttl);
    z := s.(cache := u);
    h' := GoOn(h, b, s, Mount(Find(ROOT, "f", timeout + 1)), z, timeout);
  }

  lemma RevalidatedChild(c: Cache, b: Bucket, now: Time, ttl: Time)
    requires Tree(c) && ChildKind(c, ROOT, "f").Some? && NoDirModes(b)
    ensures FindSpec(c, b, ROOT, "f", now, ttl).nodes[ROOT].children["f"] == c.nodes[ROOT].children["f"]
  {
    ChildNames(c, ROOT, "f");
  }

  // ---- An expired directory that the store has a mode for is lost -----------------------------------

  // "e/" is an object with a mode. A lookup finds a directory; a lookup when its
  // time is up makes it a file.
  lemma DirectoryLost(b: Bucket, timeout: Time) returns (h: Past, s: State, z: State)
    requires Keys(b) == {"e/"} && "e/" in b.modes
    ensures Leads(h, b, z, timeout) && z.bucket == b && |h.events| == 2 && h.states[1] == s
    ensures h.events == [Mount(Find(ROOT, "e", 0)), Mount(Find(ROOT, "e", timeout + 1))]
    ensures ChildKind(s.cache, ROOT, "e") == Some(Dir) && ChildKind(z.cache, ROOT, "e") == Some(File)
  {
    var c := ColdCache();
    h := Begin(b, timeout);
    ColdFacts();
    assert "" + "e" == "e" && "" + "e" + "/" == "e/" && AnyUnder(Keys(b), "e/") && "e/" != "e";
    var d := Fetched(c, b, ROOT, "e", timeout);
    FetchedTree(c, b, ROOT, "e", timeout);
    FetchedKind(c, b, ROOT, "e", timeout);
    s := State(d, b);
    h := GoOn(h, b, State(c, b), Mount(Find(ROOT, "e", 0)), s, timeout);
    z := State(FindSpec(d, b, ROOT, "e", timeout + 1, timeout + 1 + timeout), b);
    ExpiredDirectory(d, b, ROOT, "e", timeout + 1, timeout + 1 + timeout);
    h := GoOn(h, b, s, Mount(Find(ROOT, "e", timeout + 1)), z, timeout);
  }

  // ---- A file loses its size between pages -----------------------------------------------------------

  // Names that come before "a", each before the next.
  function Bangs(k: nat): (r: string)
    ensures |r| == k && '/' !in r
  {
    if k == 0 then "" else "!" + Bangs(k - 1)
  }

  // One page of them and "a", and "a" as a directory on the next page.
  function PageFull(max: nat): seq<Key>
    requires max >= 1
  {
    seq(max + 1, i requires 0 <= i < max + 1 =>
          if i < max - 1 then Bangs(i + 1) else if i == max - 1 then "a" else "a/")
  }

  lemma {:induction false} BangsAscend(i: nat, j: nat)
    requires i < j
    ensures Less(Bangs(i), Bangs(j))
  {
    if i > 0 { BangsAscend(i - 1, j - 1); }
  }

  lemma FullAscends(max: nat)
    requires max >= 1
    ensures Ascending(PageFull(max))
  {
    var r := PageFull(max);
    forall i, j | 0 <= i < j < |r| ensures Less(r[i], r[j]) {
      if j < max - 1 { BangsAscend(i + 1, j + 1); }
    }
  }

  // The objects: as many of these names as fill a page with "a", then "a" and "a/b".
  function FullKeys(max: nat): set<Key>
    requires max >= 1
  {
    (set i | 1 <= i < max :: Bangs(i)) + {"a", "a/b"}
  }

  lemma FullEntries(max: nat)
    requires max >= 1
    ensures Sorted(EntrySet(FullKeys(max), "", true)) == PageFull(max)
  {
    var keys, r := FullKeys(max), PageFull(max);
    forall e ensures e in r <==> e in EntrySet(keys, "", true) {
      if e in r { InFull(max, e); }
      if e in EntrySet(keys, "", true) { OfFull(max, e); }
    }
    FullAscends(max);
    SortedUnique(r, EntrySet(keys, "", true));
  }

  lemma InFull(max: nat, e: Key)
    requires max >= 1 && e in PageFull(max)
    ensures e in EntrySet(FullKeys(max), "", true)
  {
    var keys := FullKeys(max);
    var i :| 0 <= i < max + 1 && PageFull(max)[i] == e;
    if i < max {
      assert "" + e == e && ValidName(e) && e in keys;
      FileEntry(keys, "", e);
    } else {
      assert "" + "a" + "/" == "a/" && "a/" <= "a/b" && "a/b" in keys;
      DirEntry(keys, "", "a");
    }
  }

  lemma OfFull(max: nat, e: Key)
    requires max >= 1 && e in EntrySet(FullKeys(max), "", true)
    ensures e in PageFull(max)
  {
    var k :| k in FullKeys(max) && "" < k && e == EntryOf("", k, true);
    EntryOfFull(max, k);
    var i := if k == "a/b" then max else if k == "a" then max - 1 else |k| - 1;
    assert PageFull(max)[i] == e;
  }

  lemma EntryOfFull(max: nat, k: Key)
    requires max >= 1 && k in FullKeys(max)
    ensures EntryOf("", k, true) == if k == "a/b" then "a/" else k
    ensures k != "a/b" && k != "a" ==> 1 <= |k| < max && k == Bangs(|k|)
  {
    assert k[|""|..] == k;
    if k == "a/b" {
      SlashOfAB();
      assert "" + k[..2] == "a/";
    } else if k == "a" {
      assert '/' !in k;
    } else {
      var i :| 1 <= i < max && k == Bangs(i);
      assert '/' !in k;
    }
  }

  lemma SlashOfAB()
    ensures FirstSlash("a/b") == 1
  {
    assert "a/b"[0] != '/' && "a/b"[1..][0] == '/';
  }

  // A page size of max, and a bucket of max + 1 objects: the first refresh takes
  // the file "a", whatever its size, for empty.
  lemma SizeLost(b: Bucket, max: nat, timeout: Time) returns (h: Past, z: State)
    requires max >= 1 && Keys(b) == FullKeys(max)
    ensures Leads(h, b, z, timeout) && |h.events| == 1 && h.events[0].Refresh? && h.events[0].max == max
    ensures ChildKind(z.cache, ROOT, "a") == Some(File) && "a" in b.objects
    ensures z.cache.nodes[z.cache.nodes[ROOT].children["a"]].size == 0
  {
    h := Begin(b, timeout);
    var t, m := FirstRefresh(b, max, timeout);
    z := State(t, b);
    ColdFacts();
    assert "" + "a" == "a";
    RootKind(t, b, "a");
    SizeZero(t, b, max, timeout, m);
    h := Refreshing(h, b, State(ColdCache(), b), ROOT, max, 0, timeout, timeout, t, m);
  }

  lemma SizeZero(t: Cache, b: Bucket, max: nat, ttl: Time, m: Cache)
    requires max >= 1 && Keys(b) == FullKeys(max) && RefreshedWith(ColdCache(), t, ROOT, b, max, ttl, m)
    ensures ROOT in t.nodes && "a" in t.nodes[ROOT].children && t.nodes[ROOT].children["a"] in t.nodes
    ensures t.nodes[t.nodes[ROOT].children["a"]].size == 0
  {
    var at := Spot(Some(max - 1), Some(max));
    ColdFacts();
    FullSpot(max, at);
    RefreshedSize(ColdCache(), t, ROOT, b, max, ttl, m, "a", at);
  }

  lemma FullSpot(max: nat, at: Spot)
    requires max >= 1 && at == Spot(Some(max - 1), Some(max))
    ensures SpotIn(Sorted(EntrySet(FullKeys(max), "", true)), "", "a", at) && "" + "a" in FullKeys(max)
    ensures forall size: nat :: SizeAt(at, max, size) == 0
  {
    FullEntries(max);
    assert "" + "a" == "a" && "" + "a" + "/" == "a/";
    PageNumbers(at.file, max);
    PageNumbers(at.dir, max);
  }

  // ---- A file that is removed while it is open comes back ---------------------------------------------

  // "f" is created and written, removed, and then the handle that wrote it is
  // released: the object is back in the bucket, and the cache does not show it.
  lemma UnlinkedFileReturns(b: Bucket, stream: Bytes, timeout: Time) returns (h: Past, z: State)
    requires Keys(b) == {} && NoDirModes(b) && stream != []
    ensures Leads(h, b, z, timeout)
    ensures h.events == [Mount(Create(ROOT, "f", S_IFREG, 0)), Write(ROOT + 1, |stream|),
                         Mount(Remove(ROOT, "f", 0)), Release("f", stream)]
    ensures Keys(z.bucket) == {"f"} && ChildKind(z.cache, ROOT, "f") == None && !Coherent(z, ROOT)
  {
    h := Begin(b, timeout);
    var t, u, v;
    h, t := CreateF(h, b, timeout);
    u := t.(cache := SetNode(t.cache, ROOT + 1, t.cache.nodes[ROOT + 1].(size := |stream|)));
    h := GoOn(h, b, t, Write(ROOT + 1, |stream|), u, timeout);
    h, v := RemoveF(h, b, u, |stream|, timeout);
    z := v.(bucket := v.bucket.(objects := v.bucket.objects["f" := stream]));
    h := GoOn(h, b, v, Release("f", stream), z, timeout);
    NotShown(z);
  }

  lemma CreateF(h: Past, b: Bucket, timeout: Time) returns (h': Past, t: State)
    requires Leads(h, b, State(ColdCache(), b), timeout) && Keys(b) == {} && NoDirModes(b)
    ensures Leads(h', b, t, timeout) && h'.events == h.events + [Mount(Create(ROOT, "f", S_IFREG, 0))]
    ensures t.cache == Attach(ColdCache(), ROOT, "f", S_IFREG, 0) && t.bucket == b.(objects := map["f" := []])
  {
    var s := State(ColdCache(), b);
    ColdFacts();
    assert "" + "f" == "f" && KindAt(Keys(b), "", "f") == None;
    t := CreateSpec(s, ROOT, "f", S_IFREG, 0, timeout);
    assert b.objects == map[];
    h' := GoOn(h, b, s, Mount(Create(ROOT, "f", S_IFREG, 0)), t, timeout);
  }

  lemma RemoveF(h: Past, b: Bucket, u: State, size: nat, timeout: Time) returns (h': Past, v: State)
    requires Leads(h, b, u, timeout) && u.bucket == b.(objects := map["f" := []]) && NoDirModes(b)
    requires var t := Attach(ColdCache(), ROOT, "f", S_IFREG, 0);
             u.cache == SetNode(t, ROOT + 1, t.nodes[ROOT + 1].(size := size))
    ensures Leads(h', b, v, timeout) && h'.events == h.events + [Mount(Remove(ROOT, "f", 0))]
    ensures Keys(v.bucket) == {} && v.cache.nodes == ColdCache().nodes
  {
    ColdFacts();
    var c := u.cache;
    assert c.nodes[ROOT].children == map["f" := ROOT + 1];
    assert Names(c, ROOT) == [] && "" + "f" == "f";
    v := AfterRemoval(u, ROOT, "f");
    forall r | r in c.nodes ensures Below(c, ROOT + 1, r) <==> r == ROOT + 1 {
      assert r == ROOT || r == ROOT + 1;
      assert !Below(c, ROOT + 1, 0);
    }
    assert v.cache.nodes.Keys == ColdCache().nodes.Keys;
    assert map["f" := ROOT + 1] - {"f"} == map[];
    assert FindSpec(c, u.bucket, ROOT, "f", 0, timeout) == c && u.(cache := c) == u;
    h' := GoOn(h, b, u, Mount(Remove(ROOT, "f", 0)), v, timeout);
  }

  lemma NotShown(z: State)
    requires z.cache.nodes == ColdCache().nodes && Keys(z.bucket) == {"f"}
    ensures ChildKind(z.cache, ROOT, "f") == None && !Coherent(z, ROOT)
  {
    assert Names(z.cache, ROOT) == [];
    assert "" + "f" == "f";
    assert !Agrees(z, ROOT, "f");
  }

  // ---- A file is read short --------------------------------------------------------------------------

  lemma WriteF(h: Past, b: Bucket, s: State, size: nat, timeout: Time) returns (h': Past, t: State)
    requires Leads(h, b, s, timeout) && ROOT + 1 in s.cache.nodes
    ensures Leads(h', b, t, timeout) && h'.events == h.events + [Write(ROOT + 1, size)]
    ensures t == s.(cache := SetNode(s.cache, ROOT + 1, s.cache.nodes[ROOT + 1].(size := size)))
  {
    t := s.(cache := SetNode(s.cache, ROOT + 1, s.cache.nodes[ROOT + 1].(size := size)));
    h' := GoOn(h, b, s, Write(ROOT + 1, size), t, timeout);
  }

  lemma ReleaseF(h: Past, b: Bucket, s: State, stream: Bytes, timeout: Time) returns (h': Past, t: State)
    requires Leads(h, b, s, timeout) && stream != []
    ensures Leads(h', b, t, timeout) && h'.events == h.events + [Release("f", stream)]
    ensures t.cache == s.cache && ObjectAt(t.bucket, "f") == Some(stream)
  {
    t := s.(bucket := s.bucket.(objects := s.bucket.objects["f" := stream]));
    h' := GoOn(h, b, s, Release("f", stream), t, timeout);
  }

  // The cache holds "f", with this size.
  ghost predicate FileF(c: Cache, size: nat) {
    && Tree(c) && IsDirMode(c.nodes[ROOT].mode) && ROOT + 1 in c.nodes && FullPath(c, ROOT + 1) == "f"
    && "f" in c.nodes[ROOT].children && c.nodes[ROOT].children["f"] == ROOT + 1
    && !IsDirMode(c.nodes[ROOT + 1].mode) && c.nodes[ROOT + 1].size == size
  }

  lemma WrittenF(h: Past, b: Bucket, size: nat, timeout: Time) returns (h': Past, t: State)
    requires Leads(h, b, State(ColdCache(), b), timeout) && Keys(b) == {} && NoDirModes(b)
    ensures Leads(h', b, t, timeout)
    ensures h'.events == h.events + [Mount(Create(ROOT, "f", S_IFREG, 0)), Write(ROOT + 1, size)]
    ensures FileF(t.cache, size) && t.cache.nodes[ROOT + 1].ttl == 0 && t.bucket == b.(objects := map["f" := []])
  {
    var s;
    h', s := CreateF(h, b, timeout);
    h', t := WriteF(h', b, s, size, timeout);
    SoundEnd(h', b, t, timeout);
    NameF(t.cache);
  }

  lemma NameF(c: Cache)
    requires Tree(c) && "f" in c.nodes[ROOT].children && c.nodes[ROOT].children["f"] == ROOT + 1
    ensures FullPath(c, ROOT + 1) == "f"
  {
    ChildPaths(c, ROOT, "f");
    assert Names(c, ROOT) == [];
    assert "" + "f" == "f";
  }

  // "f" is created, written, looked up when its time is up, which takes the size
  // of the empty object that the creation put, and then released. Until the time
  // is up again whoever opens it reads nothing.
  lemma LookupCutsFile(b: Bucket, stream: Bytes, timeout: Time) returns (h: Past, z: State, x: InodeID)
    requires Keys(b) == {} && NoDirModes(b) && stream != []
    ensures Leads(h, b, z, timeout) && x in z.cache.nodes && FullPath(z.cache, x) == "f"
    ensures h.events == [Mount(Create(ROOT, "f", S_IFREG, 0)), Write(x, |stream|),
                         Mount(Find(ROOT, "f", 1)), Release("f", stream)]
    ensures ObjectAt(z.bucket, "f") == Some(stream) && z.cache.nodes[x].ttl == 1 + timeout
    ensures forall off: nat, size: nat :: OpenedReads(z, x, off, size) == []
  {
    h := Begin(b, timeout);
    x := ROOT + 1;
    var t, u;
    h, t := WrittenF(h, b, |stream|, timeout);
    h, u := LookUpF1(h, b, t, |stream|, timeout);
    h, z := ReleaseF(h, b, u, stream, timeout);
  }

  lemma LookUpF1(h: Past, b: Bucket, t: State, size: nat, timeout: Time) returns (h': Past, u: State)
    requires Leads(h, b, t, timeout) && NoDirModes(b) && FileF(t.cache, size)
    requires t.cache.nodes[ROOT + 1].ttl == 0 && t.bucket == b.(objects := map["f" := []])
    ensures Leads(h', b, u, timeout) && h'.events == h.events + [Mount(Find(ROOT, "f", 1))]
    ensures FileF(u.cache, 0) && u.cache.nodes[ROOT + 1].ttl == 1 + timeout
  {
    u := t.(cache := FindSpec(t.cache, t.bucket, ROOT, "f", 1, 1 + timeout));
    RevalidatedNode(t.cache, t.bucket, ROOT + 1, 1 + timeout);
    h' := GoOn(h, b, t, Mount(Find(ROOT, "f", 1)), u, timeout);
    SoundEnd(h', b, u, timeout);
    NameF(u.cache);
  }

  // Two writers of "f": the longer stream is written first and released last.
  // The object is that stream, and a handle reads only as much of it as the other
  // writer wrote.
  lemma ShorterWriteCutsFile(b: Bucket, long: Bytes, short: Bytes, timeout: Time) returns (h: Past, z: State)
    requires Keys(b) == {} && NoDirModes(b) && 0 < |short| < |long| < Handles.U64
    ensures Leads(h, b, z, timeout) && ROOT + 1 in z.cache.nodes && FullPath(z.cache, ROOT + 1) == "f"
    ensures h.events == [Mount(Create(ROOT, "f", S_IFREG, 0)), Write(ROOT + 1, |long|),
                         Write(ROOT + 1, |short|), Release("f", short), Release("f", long)]
    ensures ObjectAt(z.bucket, "f") == Some(long) && OpenedReads(z, ROOT + 1, 0, |long|) == long[..|short|]
  {
    h := Begin(b, timeout);
    var t, u, v;
    h, t := WrittenF(h, b, |long|, timeout);
    h, u := WriteF(h, b, t, |short|, timeout);
    SoundEnd(h, b, u, timeout);
    NameF(u.cache);
    h, v := ReleaseF(h, b, u, short, timeout);
    h, z := ReleaseF(h, b, v, long, timeout);
  }

  // ---- An expired file loses its type ---------------------------------------------------------------

  // "f" is looked up, and again when its time is up: it is a regular file, and
  // then a file of no type.
  lemma TypeLost(b: Bucket, timeout: Time) returns (h: Past, s: State, z: State, x: InodeID)
    requires Keys(b) == {"f"} && NoDirModes(b)
    ensures Leads(h, b, z, timeout) && |h.states| == 3 && h.states[1] == s && z.bucket == b
    ensures h.events == [Mount(Find(ROOT, "f", 0)), Mount(Find(ROOT, "f", timeout + 1))]
    ensures x in s.cache.nodes && s.cache.nodes[x].mode & !0x1FF == 0x8000
    ensures x in z.cache.nodes && z.cache.nodes[x].mode & !0x1FF == 0
  {
    var d;
    h := Begin(b, timeout);
    h, d := LookUpF(h, b, timeout);
    s := State(d, b);
    x := d.nodes[ROOT].children["f"];
    z := TypeGone(s, timeout + 1, timeout + 1 + timeout, x);
    h := GoOn(h, b, s, Mount(Find(ROOT, "f", timeout + 1)), z, timeout);
  }

  lemma TypeGone(s: State, now: Time, ttl: Time, x: InodeID) returns (z: State)
    requires Tree(s.cache) && ChildKind(s.cache, ROOT, "f") == Some(File) && x == s.cache.nodes[ROOT].children["f"]
    requires s.cache.nodes[x].ttl < now
    ensures z == s.(cache := FindSpec(s.cache, s.bucket, ROOT, "f", now, ttl))
    ensures x in z.cache.nodes && z.cache.nodes[x].mode & !0x1FF == 0
  {
    z := s.(cache := FindSpec(s.cache, s.bucket, ROOT, "f", now, ttl));
    LookupAttributes(s.cache, s.bucket, ROOT, "f", now, ttl, File);
  }

  // ---- An empty directory is listed again and again ------------------------------------------------

  // The bucket is empty. The root is refreshed twice at the same time: it is not
  // live after the first refresh, and it never is.
  lemma EmptyListedAgain(b: Bucket, max: nat, timeout: Time) returns (h: Past, z: State)
    requires Keys(b) == {} && NoDirModes(b) && max >= 1
    ensures Leads(h, b, z, timeout) && |h.events| == 2 && z.bucket == b
    ensures RefreshesRoot(h.events[0], 0) && RefreshesRoot(h.events[1], 0)
    ensures forall later :: !Live(z.cache, ROOT, later)
  {
    h := Begin(b, timeout);
    var c := ColdCache();
    ColdFacts();
    EmptyShows(c, b);
    var s, m := RefreshHappens(c, ROOT, b, max, timeout);
    RefreshedSelf(c, s, ROOT, b, max, timeout, m);
    h := Refreshing(h, b, State(c, b), ROOT, max, 0, timeout, timeout, s, m);
    EmptyAgain(c, s, b, max, timeout, m);
    var u, m' := RefreshHappens(s, ROOT, b, max, timeout);
    RefreshedSelf(s, u, ROOT, b, max, timeout, m');
    h := Refreshing(h, b, State(s, b), ROOT, max, 0, timeout, timeout, u, m');
    z := State(u, b);
  }

  lemma EmptyShows(c: Cache, b: Bucket)
    requires ROOT in c.nodes && c.nodes[ROOT].children == map[] && !c.nodes[ROOT].complete && Keys(b) == {}
    ensures !Shows(c, b, ROOT)
  {}

  lemma EmptyAgain(c: Cache, s: Cache, b: Bucket, max: nat, ttl: Time, m: Cache)
    requires Tree(c) && ROOT in c.nodes && RefreshedWith(c, s, ROOT, b, max, ttl, m) && Keys(b) == {}
    requires !Shows(c, b, ROOT)
    ensures Tree(s) && ROOT in s.nodes && !Shows(s, b, ROOT)
  {
    RefreshTree(c, s, ROOT, b, max, ttl, m);
    RefreshedSelf(c, s, ROOT, b, max, ttl, m);
    EmptyShows(s, b);
  }

  // ---- A directory that is not empty is removed ---------------------------------------------------

  // "e" is looked up and removed, although the bucket holds "e/f".
  lemma FullDirectoryRemoved(b: Bucket, timeout: Time) returns (h: Past, s: State, z: State)
    requires Keys(b) == {"e/f"} && NoDirModes(b)
    ensures Leads(h, b, z, timeout) && |h.states| == 3 && h.states[1] == s
    ensures h.events == [Mount(Find(ROOT, "e", 0)), Mount(Remove(ROOT, "e", 0))]
    ensures ROOT in s.cache.nodes && RemoveOutcome(s.cache, ROOT, "e") == Removed
    ensures Keys(z.bucket) == {"e/f"} && ChildKind(z.cache, ROOT, "e") == None
  {
    var c := ColdCache();
    h := Begin(b, timeout);
    ColdFacts();
    EntriesOfE();
    s := State(Fetched(c, b, ROOT, "e", timeout), b);
    FetchedTree(c, b, ROOT, "e", timeout);
    FetchedKind(c, b, ROOT, "e", timeout);
    h := GoOn(h, b, State(c, b), Mount(Find(ROOT, "e", 0)), s, timeout);
    EmptyE(s, b, timeout);
    z := AfterRemoval(s, ROOT, "e");
    h := GoOn(h, b, s, Mount(Remove(ROOT, "e", 0)), z, timeout);
  }

  lemma EmptyE(s: State, b: Bucket, timeout: Time)
    requires Keys(b) == {"e/f"} && s == State(Fetched(ColdCache(), b, ROOT, "e", timeout), b)
    ensures ROOT in s.cache.nodes && "e" in s.cache.nodes[ROOT].children
    ensures s.cache.nodes[ROOT].children["e"] in s.cache.nodes && RemoveOutcome(s.cache, ROOT, "e") == Removed
    ensures var z := AfterRemoval(s, ROOT, "e");
            Follows(s, Mount(Remove(ROOT, "e", 0)), z, timeout) && Keys(z.bucket) == {"e/f"}
            && ChildKind(z.cache, ROOT, "e") == None
  {
    var c := ColdCache();
    ColdFacts();
    EntriesOfE();
    assert "" + "e" + "/" == "e/";
    FetchedVirtual(c, b, ROOT, "e", timeout);
    FetchedTree(c, b, ROOT, "e", timeout);
    var d := s.cache;
    assert d.nodes[ROOT].children["e"] == ROOT + 1 && d.nodes[ROOT + 1].children == map[];
    assert FindSpec(d, b, ROOT, "e", 0, timeout) == d && s.(cache := d) == s;
    assert Names(d, ROOT) == [] && RemovedKey(d, ROOT, "e") == "e/";
    DetachTree(d, ROOT, "e");
  }
}

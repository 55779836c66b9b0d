// Paths as strings: names joined by slashes, and the object keys made from them.
module Paths {
  import opened Basics
  import opened Listing
  import opened DentryTree

  // The listing prefix of the directory reached by these names: each name
  // followed by a slash; the root has the empty prefix.
  function Prefix(ns: seq<string>): (s: string) {
    if ns == [] then "" else ns[0] + "/" + Prefix(ns[1..])
  }

  // The slash-join of names.
  function Join(ns: seq<string>): string {
    if ns == [] then "" else Prefix(ns[..|ns| - 1]) + ns[|ns| - 1]
  }

  // Cutting a prefix at its slashes.
  function Split(s: string): seq<string>
    decreases |s|
  {
    if '/' !in s then []
    else [s[..FirstSlash(s)]] + Split(s[FirstSlash(s) + 1..])
  }

  lemma {:induction false} PrefixAppend(ns: seq<string>, n: string)
    ensures Prefix(ns + [n]) == Prefix(ns) + n + "/"
  {
    if ns == [] {
      assert Prefix([n]) == n + "/" + Prefix([n][1..]);
      assert [] + [n] == [n];
      assert n + "/" + "" == "" + n + "/";
    } else {
      PrefixAppend(ns[1..], n);
      assert (ns + [n])[1..] == ns[1..] + [n];
      assert ns[0] + "/" + (Prefix(ns[1..]) + n + "/") == ns[0] + "/" + Prefix(ns[1..]) + n + "/";
    }
  }

  lemma FirstSlashOf(n: string, rest: string)
    requires ValidName(n)
    ensures FirstSlash(n + "/" + rest) == |n|
    ensures (n + "/" + rest)[..|n|] == n && (n + "/" + rest)[|n| + 1..] == rest
  {
    var s := n + "/" + rest;
    assert s[..|n|] == n;
    FirstSlashAt(s, |n|);
  }

  // Split undoes Prefix: the names can be read off a prefix, and what follows
  // its last slash does not matter.
  lemma {:induction false} SplitOfPrefix(ns: seq<string>, n: string)
    requires ValidNames(ns) && '/' !in n
    ensures Split(Prefix(ns) + n) == ns
  {
    if ns == [] {
      assert Prefix(ns) + n == n;
    } else {
      var rest := Prefix(ns[1..]) + n;
      assert Prefix(ns) + n == ns[0] + "/" + rest;
      FirstSlashOf(ns[0], rest);
      SplitOfPrefix(ns[1..], n);
      assert ns == [ns[0]] + ns[1..];
    }
  }

  lemma InExtension(a: string, b: string, x: char)
    requires a <= b && x in a
    ensures x in b
  {
    var i :| 0 <= i < |a| && a[i] == x;
    assert b[i] == x;
  }

  lemma HeadOrder(m: string, a: string, n: string, b: string)
    requires ValidName(m) && ValidName(n)
    ensures m + "/" + a <= n + "/" + b <==> m == n && a <= b
  {
    var s, k := m + "/" + a, n + "/" + b;
    FirstSlashOf(m, a);
    FirstSlashOf(n, b);
    if s <= k {
      assert k[..|m|] == m && k[|m|] == '/';
      FirstSlashAt(k, |m|);
      assert a == s[|m| + 1..] <= k[|m| + 1..];
    }
  }

  // One prefix extends another exactly when its names extend the other's names.
  lemma {:induction false} PrefixOrder(ms: seq<string>, ns: seq<string>, n: string)
    requires ValidNames(ms) && ValidNames(ns) && '/' !in n
    ensures Prefix(ms) <= Prefix(ns) + n <==> ms <= ns
  {
    var k := Prefix(ns) + n;
    if ms == [] {
    } else if ns == [] {
      assert k == n;
      assert Prefix(ms)[|ms[0]|] == '/';
      if Prefix(ms) <= n { InExtension(Prefix(ms), n, '/'); }
    } else {
      var m, rest := ms[0], Prefix(ms[1..]);
      var tail := Prefix(ns[1..]) + n;
      assert k == ns[0] + "/" + tail;
      PrefixOrder(ms[1..], ns[1..], n);
      HeadOrder(m, rest, ns[0], tail);
      if ms <= ns {
        assert ms[0] == ns[0] && ms[1..] <= ns[1..];
      }
    }
  }

  // ---- Dentry paths ----------------------------------------------------------

  // get_full_path and get_full_path_with_slash.
  ghost function FullPath(c: Cache, r: InodeID): string {
    Join(Names(c, r))
  }

  ghost function DirPrefix(c: Cache, r: InodeID): string {
    Prefix(Names(c, r))
  }

  // The key of the object for name n in directory r.
  ghost function ChildKey(c: Cache, r: InodeID, n: string, kind: Kind): Key {
    if kind.Dir? then DirPrefix(c, r) + n + "/" else DirPrefix(c, r) + n
  }

  lemma ChildPaths(c: Cache, r: InodeID, n: string)
    requires Tree(c) && r in c.nodes && n in c.nodes[r].children
    ensures var x := c.nodes[r].children[n];
            && FullPath(c, x) == DirPrefix(c, r) + n
            && DirPrefix(c, x) == DirPrefix(c, r) + n + "/"
  {
    ChildNames(c, r, n);
    var ns := Names(c, r);
    assert (ns + [n])[..|ns|] == ns;
    PrefixAppend(ns, n);
  }

  // One turn of the upward loop of get_full_path.
  lemma UpStep(c: Cache, r: InodeID, x: InodeID, path: string)
    requires Tree(c) && r in c.nodes && x in c.nodes && x != ROOT
    requires DirPrefix(c, x) + path == FullPath(c, r)
    ensures c.nodes[x].parent in c.nodes && c.nodes[x].parent < x
    ensures DirPrefix(c, c.nodes[x].parent) + (c.nodes[x].name + "/" + path) == FullPath(c, r)
  {
    assert Placed(c, x);
    PrefixAppend(Names(c, c.nodes[x].parent), c.nodes[x].name);
  }

  lemma UpStart(c: Cache, r: InodeID)
    requires Tree(c) && r in c.nodes && r != ROOT
    ensures c.nodes[r].parent in c.nodes
    ensures DirPrefix(c, c.nodes[r].parent) + c.nodes[r].name == FullPath(c, r)
  {
    assert Placed(c, r);
    var ns := Names(c, c.nodes[r].parent);
    assert (ns + [c.nodes[r].name])[..|ns|] == ns;
  }

  // A path leads back to its dentry, and to no other: cutting the path of an
  // attached dentry at its slashes and walking get_child along the pieces from
  // the root returns the dentry.
  lemma PathRoundTrip(c: Cache, r: InodeID)
    requires Tree(c) && r in c.nodes
    ensures Walk(c, ROOT, Split(DirPrefix(c, r))) == Some(r)
    ensures r != ROOT ==> DirPrefix(c, r) == FullPath(c, r) + "/"
  {
    NamesValid(c, r);
    SplitOfPrefix(Names(c, r), "");
    assert Prefix(Names(c, r)) + "" == Prefix(Names(c, r));
    WalkOfNames(c, r);
    if r != ROOT {
      assert Placed(c, r);
      var ns := Names(c, c.nodes[r].parent);
      assert (ns + [c.nodes[r].name])[..|ns|] == ns;
      PrefixAppend(ns, c.nodes[r].name);
    }
  }

  lemma PathsDistinct(c: Cache, r: InodeID, t: InodeID)
    requires Tree(c) && r in c.nodes && t in c.nodes
    requires FullPath(c, r) == FullPath(c, t)
    ensures r == t
  {
    PathRoundTrip(c, r);
    PathRoundTrip(c, t);
    PathEmpty(c, r);
    PathEmpty(c, t);
  }

  lemma PathEmpty(c: Cache, r: InodeID)
    requires Tree(c) && r in c.nodes
    ensures FullPath(c, r) == "" <==> r == ROOT
  {
    assert Placed(c, r);
  }
}

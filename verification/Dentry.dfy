// The tree node of the dentry cache: a mutable object with a parent pointer.
module DentryNode {
  import opened Basics
  import opened DentryTree
  import Paths

  // An entry as a directory listing returns it.
  datatype Dirent = Dirent(name: string, ino: InodeID)

  ghost function Ids(children: map<string, Dentry>): map<string, InodeID> {
    map k | k in children :: children[k].ino
  }

  // The inode of a dentry is part of it: ino never changes, mode and size do.
  class Dentry {
    const name: string
    const ino: InodeID
    const parent: Dentry?
    var mode: Mode
    var size: nat
    var ttl: Time
    var complete: bool
    var synced: bool
    var children: map<string, Dentry>

    constructor (name: string, ino: InodeID, mode: Mode, size: nat, parent: Dentry?)
      ensures this.name == name && this.ino == ino && this.parent == parent
      ensures this.mode == mode && this.size == size
      ensures ttl == 0 && !complete && !synced && children == map[]
    {
      this.name, this.ino, this.parent := name, ino, parent;
      this.mode, this.size := mode, size;
      ttl, complete, synced, children := 0, false, false, map[];
    }

    // The value this dentry stands for.
    ghost function Node(): Node
      reads this
    {
      DentryTree.Node(name, if parent == null then 0 else parent.ino, mode, size, synced, ttl, complete, Ids(children))
    }

    predicate IsRoot() {
      ino == ROOT
    }

    predicate IsDir()
      reads this
    {
      IsDirMode(mode)
    }

    predicate IsExpired(now: Time)
      reads this
    {
      ttl < now
    }

    method GetChild(name: string) returns (child: Dentry?)
      ensures child == if name in children then children[name] else null
    {
      if name in children {
        return children[name];
      }
      return null;
    }

    method AddChild(name: string, ino: InodeID, mode: Mode, size: nat) returns (child: Dentry)
      modifies this`children
      ensures fresh(child) && child.name == name && child.ino == ino && child.parent == this && child.children == map[]
      ensures child.Node() == NewNode(name, this.ino, mode, size)
      ensures children == old(children)[name := child]
      ensures Node() == old(Node()).(children := old(Node()).children[name := ino])
    {
      child := new Dentry(name, ino, mode, size, this);
      assert Ids(map[]) == map[] && Ids(children[name := child]) == Ids(children)[name := ino];
      children := children[name := child];
    }

    method RemoveChild(name: string)
      modifies this`children
      ensures children == old(children) - {name}
      ensures Node() == old(Node()).(children := old(Node()).children - {name})
    {
      assert Ids(children - {name}) == Ids(children) - {name};
      if name in children {
        children := children - {name};
      } else {
        assert children - {name} == children;
      }
    }

    method IncTtl(now: Time, duration: Time)
      modifies this`ttl
      ensures Node() == old(Node()).(ttl := now + duration)
    {
      ttl := now + duration;
    }

    method Update(size: nat)
      modifies this`size
      ensures Node() == old(Node()).(size := size)
    {
      this.size := size;
    }

    // Overwrites those of the inode's attributes that are given.
    method SetAttributes(size: Option<nat>, mode: Option<Mode>)
      modifies this`size, this`mode
      ensures Node() == old(Node()).(
                size := if size.Some? then size.value else old(this.size),
                mode := if mode.Some? then mode.value else old(this.mode))
    {
      if size.Some? {
        this.size := size.value;
      }
      if mode.Some? {
        this.mode := mode.value;
      }
    }

    // The entries of the children, each child once, in some order.
    method ChildrenList() returns (dirents: seq<Dirent>)
      requires forall k :: k in children ==> children[k].name == k
      ensures |dirents| == |children|
      ensures forall e :: e in dirents <==> e.name in children && e.ino == children[e.name].ino
    {
      dirents := [];
      var rest := children.Keys;
      while rest != {}
        invariant rest <= children.Keys && |dirents| + |rest| == |children.Keys|
        invariant forall e :: e in dirents <==>
                    e.name in children && e.name !in rest && e.ino == children[e.name].ino
        decreases |rest|
      {
        var k :| k in rest;
        dirents := dirents + [Dirent(children[k].name, children[k].ino)];
        rest := rest - {k};
      }
      assert |children.Keys| == |children|;
    }

    // Walks up the parent pointers, prepending names.
    method GetFullPath(ghost c: Cache, ghost all: map<InodeID, Dentry>) returns (path: string)
      requires Shown(all, c) && Tree(c) && ino in c.nodes && all[ino] == this
      ensures path == Paths.FullPath(c, ino)
    {
      if IsRoot() {
        return "";
      }
      path := name;
      var p := parent;
      assert ShownAt(all, c, ino);
      Paths.UpStart(c, ino);
      while p != null && !p.IsRoot()
        invariant p != null && p.ino in c.nodes && all[p.ino] == p
        invariant Paths.DirPrefix(c, p.ino) + path == Paths.FullPath(c, ino)
        decreases p.ino
      {
        assert ShownAt(all, c, p.ino);
        Paths.UpStep(c, ino, p.ino, path);
        path := p.name + "/" + path;
        p := p.parent;
      }
    }

    method GetFullPathWithSlash(ghost c: Cache, ghost all: map<InodeID, Dentry>) returns (path: string)
      requires Shown(all, c) && Tree(c) && ino in c.nodes && all[ino] == this
      ensures path == Paths.DirPrefix(c, ino)
    {
      Paths.PathRoundTrip(c, ino);
      if IsRoot() {
        return "";
      }
      path := GetFullPath(c, all);
      path := path + "/";
    }
  }

  // Dentry i of these is linked to others of these, and stands for node i.
  ghost predicate ShownAt(all: map<InodeID, Dentry>, c: Cache, i: InodeID)
    requires i in all
    reads all[i]
  {
    var d := all[i];
    && d.ino == i && i in c.nodes && c.nodes[i] == d.Node()
    && (d.parent == null <==> i == ROOT)
    && (d.parent != null ==> d.parent.ino in all && all[d.parent.ino] == d.parent)
    && forall k :: k in d.children ==> d.children[k].ino in all && all[d.children[k].ino] == d.children[k]
  }

  // The attached dentries, by inode id, stand for the nodes of the cache.
  ghost predicate Shown(all: map<InodeID, Dentry>, c: Cache)
    reads all.Values
  {
    && c.nodes.Keys <= all.Keys
    && forall i {:trigger ShownAt(all, c, i)} :: i in c.nodes ==> ShownAt(all, c, i)
  }
}

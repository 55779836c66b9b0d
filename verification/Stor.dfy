// The object store behind the mount: a bucket of objects plus open multipart
// uploads. Every call is recorded.
module Stor {
  import opened Basics
  import opened Listing
  import opened SequentialStream

  datatype ObjInfo = ObjInfo(name: Key, size: nat, mode: Option<Mode>)

  datatype ListResp = ListResp(isTrunc: bool, nextMarker: Key, objs: seq<ObjInfo>, commonPrefixes: seq<Key>)

  // An open multipart upload; `bound` exceeds every part number in use.
  datatype Upload = Upload(key: Key, parts: map<nat, Bytes>, bound: nat)

  // The parts in part-number order.
  function Assemble(parts: map<nat, Bytes>, bound: nat): Bytes {
    if bound == 0 then []
    else Assemble(parts, bound - 1) + (if bound - 1 in parts then parts[bound - 1] else [])
  }

  function PartMap(parts: seq<Bytes>): map<nat, Bytes> {
    map i: nat | i < |parts| :: parts[i]
  }

  lemma {:induction false} AssembleNumbered(all: seq<Bytes>, n: nat)
    requires n <= |all|
    ensures Assemble(PartMap(all), n) == Flatten(all[..n])
  {
    if n > 0 {
      AssembleNumbered(all, n - 1);
      FlattenAppend(all[..n - 1], all[n - 1]);
      assert all[..n] == all[..n - 1] + [all[n - 1]];
    } else {
      assert all[..0] == [];
    }
  }

  function InfoOf(objects: map<Key, Bytes>, modes: map<Key, Mode>, k: Key): ObjInfo {
    ObjInfo(k,
            if k in objects then |objects[k]| else 0,
            if k in modes then Some(modes[k]) else None)
  }

  // The answer to one listing call: the entries of the page, files and common
  // prefixes apart, each in key order.
  function Files(entries: seq<Key>): (r: seq<Key>)
    ensures forall k :: k in r <==> k in entries && !IsCommonPrefix(k)
  {
    if entries == [] then []
    else (if IsCommonPrefix(entries[0]) then [] else [entries[0]]) + Files(entries[1..])
  }

  function Infos(objects: map<Key, Bytes>, modes: map<Key, Mode>, entries: seq<Key>): (r: seq<ObjInfo>)
    ensures |r| == |Files(entries)|
    ensures forall i :: 0 <= i < |r| ==> r[i] == InfoOf(objects, modes, Files(entries)[i])
  {
    var files := Files(entries);
    seq(|files|, i requires 0 <= i < |files| => InfoOf(objects, modes, files[i]))
  }

  function Prefixes(entries: seq<Key>): (r: seq<Key>)
    ensures forall k :: k in r <==> k in entries && IsCommonPrefix(k)
  {
    if entries == [] then []
    else (if IsCommonPrefix(entries[0]) then [entries[0]] else []) + Prefixes(entries[1..])
  }

  class Stor {
    // The part size that minit answers with, and the modes that the store
    // reports for some keys.
    const partSize: nat
    const modes: map<Key, Mode>
    // What a response field that the store did not fill in holds.
    const junk: nat

    var objects: map<Key, Bytes>
    var uploads: map<nat, Upload>
    var nextUpload: nat
    ghost var log: seq<Call>

    ghost predicate Valid()
      reads this
    {
      && partSize > 0
      && forall i :: i in uploads ==> i < nextUpload
    }

    constructor (partSize: nat, modes: map<Key, Mode>, junk: nat, objects: map<Key, Bytes>)
      requires partSize > 0
      ensures Valid() && this.partSize == partSize && this.modes == modes
      ensures this.objects == objects && uploads == map[] && log == []
    {
      this.partSize, this.modes, this.junk := partSize, modes, junk;
      this.objects, uploads, nextUpload, log := objects, map[], 0, [];
    }

    method HeadFile(key: Key) returns (exist: bool, obj: ObjInfo)
      requires Valid()
      modifies this`log
      ensures log == old(log) + [Call.HeadFile(key)]
      ensures exist <==> key in objects
      ensures obj == if exist then InfoOf(objects, modes, key) else ObjInfo("", junk, None)
    {
      log := log + [Call.HeadFile(key)];
      exist := key in objects;
      obj := if exist then InfoOf(objects, modes, key) else ObjInfo("", junk, None);
    }

    method ListObjects(delimited: bool, prefix: Key, max: nat, marker: Key) returns (resp: ListResp)
      requires Valid() && max >= 1
      modifies this`log
      ensures log == old(log) + [Call.ListObjects(prefix, delimited, marker)]
      ensures var p := PageAfter(EntrySet(objects.Keys, prefix, delimited), marker, max);
              && resp.isTrunc == p.isTrunc && resp.nextMarker == p.nextMarker
              && (delimited ==> resp.objs == Infos(objects, modes, p.entries)
                                && resp.commonPrefixes == Prefixes(p.entries))
              && (!delimited ==> resp.commonPrefixes == [] && |resp.objs| == |p.entries|
                                 && forall i :: 0 <= i < |resp.objs| ==>
                                      resp.objs[i] == InfoOf(objects, modes, p.entries[i]))
    {
      log := log + [Call.ListObjects(prefix, delimited, marker)];
      var p := PageAfter(EntrySet(objects.Keys, prefix, delimited), marker, max);
      if delimited {
        resp := ListResp(p.isTrunc, p.nextMarker, Infos(objects, modes, p.entries), Prefixes(p.entries));
      } else {
        var objs := seq(|p.entries|, i requires 0 <= i < |p.entries| reads this =>
                          InfoOf(objects, modes, p.entries[i]));
        resp := ListResp(p.isTrunc, p.nextMarker, objs, []);
      }
    }

    method PutFile(key: Key, data: Bytes)
      requires Valid()
      modifies this`objects, this`log
      ensures Valid()
      ensures objects == old(objects)[key := data]
      ensures log == old(log) + [Call.PutFile(key, data)]
    {
      objects := objects[key := data];
      log := log + [Call.PutFile(key, data)];
    }

    method DeleteFile(key: Key)
      requires Valid()
      modifies this`objects, this`log
      ensures Valid()
      ensures objects == old(objects) - {key}
      ensures log == old(log) + [Call.DeleteFile(key)]
    {
      objects := objects - {key};
      log := log + [Call.DeleteFile(key)];
    }

    // The bytes from off on, at most size of them, as far as the object goes.
    method ReadFile(key: Key, off: nat, size: nat) returns (data: Bytes)
      requires Valid()
      modifies this`log
      ensures log == old(log) + [Call.ReadFile(key)]
      ensures data == if key in objects && off <= |objects[key]|
                      then objects[key][off..Min(off + size, |objects[key]|)] else []
    {
      log := log + [Call.ReadFile(key)];
      data := if key in objects && off <= |objects[key]|
      then objects[key][off..Min(off + size, |objects[key]|)] else [];
    }

    method MInit(key: Key) returns (id: nat)
      requires Valid()
      modifies this`uploads, this`nextUpload, this`log
      ensures Valid()
      ensures id == old(nextUpload) && nextUpload == id + 1
      ensures uploads == old(uploads)[id := Upload(key, map[], 0)]
      ensures log == old(log) + [Call.MInit(key, id)]
    {
      id := nextUpload;
      nextUpload := nextUpload + 1;
      uploads := uploads[id := Upload(key, map[], 0)];
      log := log + [Call.MInit(key, id)];
    }

    method MPut(key: Key, id: nat, partNum: nat, data: Bytes)
      requires Valid() && id in uploads
      modifies this`uploads, this`log
      ensures Valid()
      ensures var u := old(uploads[id]);
              uploads == old(uploads)[id := u.(parts := u.parts[partNum := data],
                                               bound := if partNum < u.bound then u.bound else partNum + 1)]
      ensures log == old(log) + [Call.MPut(key, id, partNum, data)]
    {
      var u := uploads[id];
      uploads := uploads[id := u.(parts := u.parts[partNum := data],
                                  bound := if partNum < u.bound then u.bound else partNum + 1)];
      log := log + [Call.MPut(key, id, partNum, data)];
    }

    // The object becomes the concatenation of the parts in part-number order.
    method MFinish(key: Key, id: nat)
      requires Valid() && id in uploads
      modifies this`objects, this`uploads, this`log
      ensures Valid()
      ensures var u := old(uploads[id]);
              objects == old(objects)[key := Assemble(u.parts, u.bound)]
      ensures uploads == old(uploads) - {id}
      ensures log == old(log) + [Call.MFinish(key, id)]
    {
      var u := uploads[id];
      objects := objects[key := Assemble(u.parts, u.bound)];
      uploads := uploads - {id};
      log := log + [Call.MFinish(key, id)];
    }
  }
}

// The sharded index from inode ids to dentries.
module DentryIndex {
  import opened DentryTree
  import opened DentryNode

  const LOCK_COUNT: nat := 64

  type Index = seq<map<InodeID, Dentry?>>

  ghost function Slot(index: Index, i: InodeID): Dentry?
    requires |index| == LOCK_COUNT
  {
    if i in index[i % LOCK_COUNT] then index[i % LOCK_COUNT][i] else null
  }

  function SetSlot(index: Index, i: InodeID, d: Dentry?): (r: Index)
    requires |index| == LOCK_COUNT
    ensures OneSlot(index, r, i, d)
  {
    var s := i % LOCK_COUNT;
    var shard: map<InodeID, Dentry?> := index[s];
    index[s := shard[i := d]]
  }

  // The index holds every dentry there ever was under its id, and nothing else.
  ghost predicate IndexOf(index: Index, all: map<InodeID, Dentry>, next: InodeID) {
    && |index| == LOCK_COUNT
    && (forall i: InodeID {:trigger Slot(index, i)} :: Slot(index, i) == if i in all then all[i] else null)
    && (forall i :: i in all ==> i < next && all[i].ino == i)
  }

  // The index after the slot of one id changed.
  ghost predicate OneSlot(index: Index, index': Index, ino: InodeID, d: Dentry?) {
    && |index| == |index'| == LOCK_COUNT
    && forall i: InodeID :: Slot(index', i) == if i == ino then d else Slot(index, i)
  }

  ghost predicate SameSlots(index: Index, index': Index) {
    && |index| == |index'| == LOCK_COUNT
    && forall i: InodeID :: Slot(index', i) == Slot(index, i)
  }

  lemma IndexAdd(index: Index, index': Index, all: map<InodeID, Dentry>, next: InodeID, ino: InodeID, d: Dentry)
    requires IndexOf(index, all, next) && OneSlot(index, index', ino, d) && d.ino == ino < next
    ensures IndexOf(index', all[ino := d], next)
  {}

  lemma IndexSame(index: Index, index': Index, all: map<InodeID, Dentry>, next: InodeID)
    requires IndexOf(index, all, next) && SameSlots(index, index')
    ensures IndexOf(index', all, next)
  {}
}

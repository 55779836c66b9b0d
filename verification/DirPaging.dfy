// Reading a directory in pages: what a sequence of replies to readdirplus
// delivers of the entries that its handle holds.
module DirPaging {
  import opened DentryNode

  // The bytes that a directory entry of this name takes in a reply.
  type EntrySize = string -> nat

  ghost predicate Positive(size: EntrySize) {
    forall n :: size(n) > 0
  }

  function Total(ds: seq<Dirent>, size: EntrySize): nat {
    if ds == [] then 0 else Total(ds[..|ds| - 1], size) + size(ds[|ds| - 1].name)
  }

  // A reply of at most rem bytes to a read from off on holds as many entries
  // as fit, and no more.
  ghost predicate Delivers(ds: seq<Dirent>, off: nat, rem: nat, k: nat, size: EntrySize) {
    && off + k <= |ds|
    && Total(ds[off..off + k], size) <= rem
    && (off + k < |ds| ==> Total(ds[off..off + k + 1], size) > rem)
  }

  lemma TotalOneMore(ds: seq<Dirent>, off: nat, k: nat, size: EntrySize)
    requires off + k < |ds|
    ensures Total(ds[off..off + k + 1], size) == Total(ds[off..off + k], size) + size(ds[off + k].name)
  {
    assert ds[off..off + k + 1][..k] == ds[off..off + k];
  }

  lemma {:induction false} TotalCounts(ds: seq<Dirent>, size: EntrySize)
    requires Positive(size)
    ensures |ds| <= Total(ds, size)
  {
    if ds != [] { TotalCounts(ds[..|ds| - 1], size); }
  }

  lemma {:induction false} TotalGrows(ds: seq<Dirent>, off: nat, j: nat, k: nat, size: EntrySize)
    requires j <= k && off + k <= |ds|
    ensures Total(ds[off..off + j], size) <= Total(ds[off..off + k], size)
    decreases k
  {
    if j < k {
      TotalGrows(ds, off, j, k - 1, size);
      TotalOneMore(ds, off, k - 1, size);
    }
  }

  // The reply is determined by the entries, the offset and the buffer size ...
  lemma DeliversOnce(ds: seq<Dirent>, off: nat, rem: nat, j: nat, k: nat, size: EntrySize)
    requires Delivers(ds, off, rem, j, size) && Delivers(ds, off, rem, k, size)
    ensures j == k
  {
    if j < k {
      TotalGrows(ds, off, j + 1, k, size);
    } else if k < j {
      TotalGrows(ds, off, k + 1, j, size);
    }
  }

  // ... and is empty exactly at the end, or when the next entry does not fit.
  lemma EmptyReply(ds: seq<Dirent>, off: nat, rem: nat, k: nat, size: EntrySize)
    requires Delivers(ds, off, rem, k, size)
    ensures k == 0 <==> off == |ds| || size(ds[off].name) > rem
  {
    if off < |ds| {
      TotalOneMore(ds, off, 0, size);
      assert ds[off..off] == [];
      if k > 0 { TotalGrows(ds, off, 1, k, size); }
    }
  }

  // ---- Sequences of calls ----------------------------------------------------------

  // A call with a buffer of rem bytes, whose reply holds k entries.
  datatype Call = Call(rem: nat, k: nat)

  // A run of calls on one handle, from off on, each from the offset that the
  // last reply ended at.
  ghost predicate Run(ds: seq<Dirent>, off: nat, calls: seq<Call>, size: EntrySize)
    decreases |calls|
  {
    calls == [] || (Delivers(ds, off, calls[0].rem, calls[0].k, size) && Run(ds, off + calls[0].k, calls[1..], size))
  }

  function End(off: nat, calls: seq<Call>): nat
    decreases |calls|
  {
    if calls == [] then off else End(off + calls[0].k, calls[1..])
  }

  ghost function Delivered(ds: seq<Dirent>, off: nat, calls: seq<Call>, size: EntrySize): seq<Dirent>
    requires Run(ds, off, calls, size)
    decreases |calls|
  {
    if calls == [] then []
    else ds[off..off + calls[0].k] + Delivered(ds, off + calls[0].k, calls[1..], size)
  }

  // Each buffer of the run can hold the entry that comes next.
  ghost predicate BuffersHold(ds: seq<Dirent>, off: nat, calls: seq<Call>, size: EntrySize)
    decreases |calls|
  {
    calls == []
    || ((off < |ds| ==> size(ds[off].name) <= calls[0].rem) && BuffersHold(ds, off + calls[0].k, calls[1..], size))
  }

  lemma SliceJoin(ds: seq<Dirent>, a: nat, b: nat, c: nat)
    requires a <= b <= c <= |ds|
    ensures ds[a..b] + ds[b..c] == ds[a..c]
  {}

  // What the replies deliver is what lies between the offsets where the run
  // starts and ends, each entry once and in order.
  lemma {:induction false} DeliveredInOrder(ds: seq<Dirent>, off: nat, calls: seq<Call>, size: EntrySize)
    requires Run(ds, off, calls, size) && off <= |ds|
    ensures off <= End(off, calls) <= |ds|
    ensures Delivered(ds, off, calls, size) == ds[off..End(off, calls)]
    decreases |calls|
  {
    if calls != [] {
      var mid, end := off + calls[0].k, End(off, calls);
      DeliveredInOrder(ds, mid, calls[1..], size);
      assert end == End(mid, calls[1..]);
      SliceJoin(ds, off, mid, end);
      assert Delivered(ds, off, calls, size) == ds[off..mid] + Delivered(ds, mid, calls[1..], size);
    }
  }

  lemma {:induction false} Progress(ds: seq<Dirent>, off: nat, calls: seq<Call>, size: EntrySize)
    requires Run(ds, off, calls, size) && BuffersHold(ds, off, calls, size) && off <= |ds|
    ensures End(off, calls) == |ds| || End(off, calls) >= off + |calls|
    decreases |calls|
  {
    if calls != [] {
      EmptyReply(ds, off, calls[0].rem, calls[0].k, size);
      Progress(ds, off + calls[0].k, calls[1..], size);
      DeliveredInOrder(ds, off + calls[0].k, calls[1..], size);
    }
  }

  // A run of at least as many calls as there are entries, with buffers that can
  // hold what comes next, delivers all of them, each exactly once and in order,
  // and ends: whatever is read after it is empty.
  lemma RunDeliversAll(ds: seq<Dirent>, calls: seq<Call>, rem: nat, k: nat, size: EntrySize)
    requires Run(ds, 0, calls, size) && BuffersHold(ds, 0, calls, size) && |calls| >= |ds|
    ensures Delivered(ds, 0, calls, size) == ds
    ensures Delivers(ds, End(0, calls), rem, k, size) <==> k == 0
  {
    Progress(ds, 0, calls, size);
    DeliveredInOrder(ds, 0, calls, size);
    assert ds[|ds|..|ds|] == [];
  }

  // Without such buffers a run can get stuck where the next entry does not
  // fit: every further reply is empty.
  lemma {:induction false} StuckRun(ds: seq<Dirent>, off: nat, calls: seq<Call>, size: EntrySize)
    requires Run(ds, off, calls, size) && off < |ds|
    requires forall i :: 0 <= i < |calls| ==> calls[i].rem < size(ds[off].name)
    ensures End(off, calls) == off && Delivered(ds, off, calls, size) == []
    decreases |calls|
  {
    if calls != [] {
      EmptyReply(ds, off, calls[0].rem, calls[0].k, size);
      StuckRun(ds, off, calls[1..], size);
    }
  }

  // Where the next entry does not fit there is such a run of any length.
  lemma {:induction false} StuckExample(ds: seq<Dirent>, off: nat, rem: nat, n: nat, size: EntrySize)
    returns (calls: seq<Call>)
    requires off < |ds| && rem < size(ds[off].name)
    ensures |calls| == n && (forall i :: 0 <= i < n ==> calls[i].rem == rem)
    ensures Run(ds, off, calls, size) && Delivered(ds, off, calls, size) == []
  {
    if n == 0 {
      return [];
    }
    var rest := StuckExample(ds, off, rem, n - 1, size);
    calls := [Call(rem, 0)] + rest;
    assert calls[1..] == rest && ds[off..off] == [];
    TotalOneMore(ds, off, 0, size);
  }

  // ---- Buffers of one size ------------------------------------------------------------

  lemma {:induction false} TotalHolds(ds: seq<Dirent>, off: nat, k: nat, i: nat, size: EntrySize)
    requires off <= i < off + k <= |ds|
    ensures size(ds[i].name) <= Total(ds[off..off + k], size)
  {
    TotalOneMore(ds, off, k - 1, size);
    if i < off + k - 1 { TotalHolds(ds, off, k - 1, i, size); }
  }

  // What was delivered fits.
  lemma {:induction false} DeliveredFits(ds: seq<Dirent>, off: nat, calls: seq<Call>, rem: nat, i: nat, size: EntrySize)
    requires Run(ds, off, calls, size) && off <= i < End(off, calls)
    requires forall j :: 0 <= j < |calls| ==> calls[j].rem == rem
    ensures i < |ds| && size(ds[i].name) <= rem
    decreases |calls|
  {
    var mid := off + calls[0].k;
    if i < mid {
      TotalHolds(ds, off, calls[0].k, i, size);
    } else {
      DeliveredFits(ds, mid, calls[1..], rem, i, size);
    }
  }

  lemma {:induction false} AllHold(ds: seq<Dirent>, off: nat, calls: seq<Call>, rem: nat, size: EntrySize)
    requires forall i :: 0 <= i < |ds| ==> size(ds[i].name) <= rem
    requires forall j :: 0 <= j < |calls| ==> calls[j].rem == rem
    ensures BuffersHold(ds, off, calls, size)
    decreases |calls|
  {
    if calls != [] { AllHold(ds, off + calls[0].k, calls[1..], rem, size); }
  }

  // With buffers of rem bytes, at least as many calls as there are entries
  // deliver the directory exactly when every entry fits such a buffer.
  lemma {:induction false} UniformRun(ds: seq<Dirent>, calls: seq<Call>, rem: nat, size: EntrySize)
    requires Run(ds, 0, calls, size) && |calls| >= |ds|
    requires forall j :: 0 <= j < |calls| ==> calls[j].rem == rem
    ensures Delivered(ds, 0, calls, size) == ds <==> forall i :: 0 <= i < |ds| ==> size(ds[i].name) <= rem
  {
    DeliveredInOrder(ds, 0, calls, size);
    if forall i :: 0 <= i < |ds| ==> size(ds[i].name) <= rem {
      AllHold(ds, 0, calls, rem, size);
      RunDeliversAll(ds, calls, rem, 0, size);
    } else {
      var i :| 0 <= i < |ds| && size(ds[i].name) > rem;
      if Delivered(ds, 0, calls, size) == ds { DeliveredFits(ds, 0, calls, rem, i, size); }
    }
  }
}

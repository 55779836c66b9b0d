// What the sequential writer means: the object-store calls that a byte stream
// turns into, as functions of the stream alone.
module SequentialStream {
  import opened Basics

  // Capacity of the single-PUT buffer: the largest stream stored with one PUT.
  const MB_8: nat := 8 * 1024 * 1024

  // A call that changes the store or asks it something.
  datatype Call =
    | HeadFile(key: Key)
    | ListObjects(prefix: Key, delimited: bool, marker: Key)
    | ReadFile(key: Key)
    | PutFile(key: Key, data: Bytes)
    | DeleteFile(key: Key)
    | MInit(key: Key, id: nat)
    | MPut(key: Key, id: nat, partNum: nat, data: Bytes)
    | MFinish(key: Key, id: nat)

  function Flatten(parts: seq<Bytes>): Bytes {
    if parts == [] then [] else parts[0] + Flatten(parts[1..])
  }

  // The full parts of a stream, and the bytes after them.
  function Chunks(s: Bytes, p: nat): (r: seq<Bytes>)
    requires p > 0
  {
    if |s| < p then [] else [s[..p]] + Chunks(s[p..], p)
  }

  function Tail(s: Bytes, p: nat): (r: Bytes)
    requires p > 0
    ensures |r| < p
  {
    if |s| < p then s else Tail(s[p..], p)
  }

  // Every part of a finished multipart upload.
  function AllParts(s: Bytes, p: nat): seq<Bytes>
    requires p > 0
  {
    if Tail(s, p) == [] then Chunks(s, p) else Chunks(s, p) + [Tail(s, p)]
  }

  function PartCalls(key: Key, id: nat, parts: seq<Bytes>): (r: seq<Call>)
    ensures |r| == |parts|
  {
    seq(|parts|, i requires 0 <= i < |parts| => MPut(key, id, i, parts[i]))
  }

  // The calls of a writer that is released after the stream s.
  function CallsInAll(s: Bytes, p: nat, key: Key, id: nat): seq<Call>
    requires p > 0
  {
    if s == [] then []
    else if |s| <= MB_8 then [PutFile(key, s)]
    else [MInit(key, id)] + PartCalls(key, id, AllParts(s, p)) + [MFinish(key, id)]
  }

  // How many bytes the buffer in use can still take after n bytes.
  function Room(n: nat, p: nat): nat
    requires p > 0
  {
    if n < MB_8 then MB_8 - n
    else if p < MB_8 then 0
    else Left(n, p)
  }

  // What is left of the part that byte n falls into.
  function Left(n: nat, p: nat): nat
    requires p > 0
  {
    if n < p then p - n else Left(n - p, p)
  }

  lemma {:induction false} LeftIs(n: nat, p: nat)
    requires p > 0
    ensures Left(n, p) == p - n % p
  {
    if n >= p {
      LeftIs(n - p, p);
      DivStep(n, p);
    }
  }

  // ---- Parts and streams --------------------------------------------------

  lemma {:induction false} ChunksRebuild(s: Bytes, p: nat)
    requires p > 0
    ensures Flatten(Chunks(s, p)) + Tail(s, p) == s
  {
    if |s| >= p {
      ChunksRebuild(s[p..], p);
      assert Chunks(s, p)[1..] == Chunks(s[p..], p);
      assert s == s[..p] + s[p..];
    }
  }

  lemma MulAtLeast(k: int, p: nat)
    requires p > 0
    ensures k >= 1 ==> k * p >= p
    ensures k <= -1 ==> k * p + p <= 0
  {}

  lemma DivUnique(n: nat, p: nat, q: nat, r: nat)
    requires p > 0 && n == q * p + r && r < p
    ensures n / p == q && n % p == r
  {
    var d, m := n / p, n % p;
    assert n == d * p + m;
    assert (d - q) * p == d * p - q * p;
    MulAtLeast(d - q, p);
  }

  lemma DivStep(n: nat, p: nat)
    requires 0 < p <= n
    ensures n / p == (n - p) / p + 1 && n % p == (n - p) % p
  {
    var q, r := (n - p) / p, (n - p) % p;
    assert n == (q + 1) * p + r;
    DivUnique(n, p, q + 1, r);
  }

  lemma {:induction false} ChunksGeometry(s: Bytes, p: nat)
    requires p > 0
    ensures |Chunks(s, p)| == |s| / p && |Tail(s, p)| == |s| % p
    ensures forall i :: 0 <= i < |Chunks(s, p)| ==> |Chunks(s, p)[i]| == p
  {
    if |s| >= p {
      ChunksGeometry(s[p..], p);
      DivStep(|s|, p);
    }
  }

  lemma {:induction false} AppendWithin(s: Bytes, d: Bytes, p: nat)
    requires p > 0 && |Tail(s, p)| + |d| < p
    ensures Chunks(s + d, p) == Chunks(s, p) && Tail(s + d, p) == Tail(s, p) + d
  {
    if |s| >= p {
      assert (s + d)[p..] == s[p..] + d && (s + d)[..p] == s[..p];
      AppendWithin(s[p..], d, p);
    }
  }

  lemma {:induction false} AppendFilling(s: Bytes, d: Bytes, p: nat)
    requires p > 0 && |Tail(s, p)| + |d| == p
    ensures Chunks(s + d, p) == Chunks(s, p) + [Tail(s, p) + d] && Tail(s + d, p) == []
  {
    if |s| >= p {
      assert (s + d)[p..] == s[p..] + d && (s + d)[..p] == s[..p];
      AppendFilling(s[p..], d, p);
    } else {
      assert (s + d)[..p] == s + d;
      assert (s + d)[p..] == [];
    }
  }

  lemma {:induction false} FlattenAppend(a: seq<Bytes>, b: Bytes)
    ensures Flatten(a + [b]) == Flatten(a) + b
  {
    if a == [] {
      assert [b][1..] == [];
    } else {
      FlattenAppend(a[1..], b);
      assert (a + [b])[1..] == a[1..] + [b];
    }
  }

  lemma PartCallsAppend(key: Key, id: nat, parts: seq<Bytes>, b: Bytes)
    ensures PartCalls(key, id, parts + [b]) == PartCalls(key, id, parts) + [MPut(key, id, |parts|, b)]
  {}

  // Part geometry. Parts are numbered from 0 without gaps, there are
  // ceil(N / P) of them, all but the last hold exactly P bytes, the last holds
  // 1 to P bytes, and together they are the stream.
  lemma MultipartGeometry(s: Bytes, p: nat)
    requires p > 0 && s != []
    ensures var parts := AllParts(s, p);
            && |parts| == (|s| + p - 1) / p
            && (forall i :: 0 <= i < |parts| - 1 ==> |parts[i]| == p)
            && parts != [] && 1 <= |parts[|parts| - 1]| <= p
            && Flatten(parts) == s
  {
    ChunksGeometry(s, p);
    ChunksRebuild(s, p);
    CeilDiv(|s|, p);
    if Tail(s, p) != [] {
      FlattenAppend(Chunks(s, p), Tail(s, p));
    }
  }

  lemma CeilDiv(n: nat, p: nat)
    requires p > 0
    ensures (n + p - 1) / p == if n % p == 0 then n / p else n / p + 1
  {
    var q, r := n / p, n % p;
    assert n == q * p + r;
    if r == 0 {
      DivUnique(n + p - 1, p, q, p - 1);
    } else {
      assert n + p - 1 == (q + 1) * p + (r - 1);
      DivUnique(n + p - 1, p, q + 1, r - 1);
    }
  }

  // Up to 8 MiB one PUT is the only call, and only then. A longer stream opens an
  // upload, puts its parts under the numbers from 0 on, and finishes it.
  lemma CallsExact(s: Bytes, p: nat, key: Key, id: nat)
    requires p > 0 && s != []
    ensures var calls, parts := CallsInAll(s, p, key, id), AllParts(s, p);
            && (calls == [PutFile(key, s)] <==> |s| <= 8388608)
            && (|s| > 8388608 ==>
                  && |calls| == |parts| + 2 && calls[0] == MInit(key, id) && calls[|parts| + 1] == MFinish(key, id)
                  && forall i :: 0 <= i < |parts| ==> calls[i + 1] == MPut(key, id, i, parts[i]))
  {
    if |s| > 8388608 { UploadCalls(key, id, AllParts(s, p), CallsInAll(s, p, key, id)); }
  }

  lemma UploadCalls(key: Key, id: nat, parts: seq<Bytes>, calls: seq<Call>)
    requires calls == [MInit(key, id)] + PartCalls(key, id, parts) + [MFinish(key, id)]
    ensures |calls| == |parts| + 2 && calls[0] == MInit(key, id) && calls[|parts| + 1] == MFinish(key, id)
    ensures forall i :: 0 <= i < |parts| ==> calls[i + 1] == MPut(key, id, i, parts[i])
  {
    forall i | 0 <= i < |parts| ensures calls[i + 1] == MPut(key, id, i, parts[i]) {
      assert calls[i + 1] == PartCalls(key, id, parts)[i];
    }
  }

  // ---- Safety of aligned writers --------------------------------------------

  function Sum(sizes: seq<nat>): nat {
    if sizes == [] then 0 else sizes[0] + Sum(sizes[1..])
  }

  // Every write of the run, made after n accepted bytes, fits the buffer in use.
  ghost predicate AllFit(n: nat, sizes: seq<nat>, p: nat)
    requires p > 0
    decreases |sizes|
  {
    sizes == [] || (sizes[0] <= Room(n, p) && AllFit(n + sizes[0], sizes[1..], p))
  }

  lemma RoomDivisible(n: nat, p: nat, b: nat)
    requires b > 0 && p >= MB_8 && n % b == 0 && MB_8 % b == 0 && p % b == 0
    ensures b <= Room(n, p)
  {
    if n < MB_8 {
      MultipleGap(MB_8, n, b);
    } else {
      LeftIs(n, p);
      var q := n / p;
      var r := n % p;
      assert r == n - q * p;
      ModProduct(q, p, b);
      MultipleDifference(n, q * p, b);
      MultipleGap(p, r, b);
    }
  }

  lemma ModProduct(q: nat, p: nat, b: nat)
    requires b > 0 && p % b == 0
    ensures (q * p) % b == 0
  {
    var k := p / b;
    assert q * p == (q * k) * b + 0;
    DivUnique(q * p, b, q * k, 0);
  }

  lemma MultipleDifference(x: nat, y: nat, b: nat)
    requires b > 0 && y <= x && x % b == 0 && y % b == 0
    ensures (x - y) % b == 0
  {
    var i, j := x / b, y / b;
    assert x - y == (i - j) * b + 0;
    MulAtLeast(i - j, b);
    DivUnique(x - y, b, i - j, 0);
  }

  lemma MultipleGap(x: nat, y: nat, b: nat)
    requires b > 0 && y < x && x % b == 0 && y % b == 0
    ensures b <= x - y
  {
    MultipleDifference(x, y, b);
    var k := (x - y) / b;
    assert x - y == k * b;
  }

  lemma MultipleSum(n: nat, b: nat)
    requires b > 0 && n % b == 0
    ensures (n + b) % b == 0
  {
    var k := n / b;
    assert n + b == (k + 1) * b + 0;
    DivUnique(n + b, b, k + 1, 0);
  }

  // Alignment keeps the buffers safe forever: writes of one size b that divides
  // both 8 MiB and the part size, with a last one of at most b, always fit.
  lemma {:induction false} AlignedWritesFit(n: nat, sizes: seq<nat>, p: nat, b: nat)
    requires b > 0 && p >= MB_8 && n % b == 0 && MB_8 % b == 0 && p % b == 0
    requires forall i :: 0 <= i < |sizes| ==> if i < |sizes| - 1 then sizes[i] == b else sizes[i] <= b
    ensures AllFit(n, sizes, p)
    decreases |sizes|
  {
    if sizes != [] {
      RoomDivisible(n, p, b);
      if |sizes| > 1 {
        assert sizes[0] == b;
        MultipleSum(n, b);
        AlignedWritesFit(n + b, sizes[1..], p, b);
      }
    }
  }

  // So many writes of b bytes.
  function Blocks(b: nat, k: nat): seq<nat> {
    seq(k, _ => b)
  }

  lemma {:induction false} EachBlockFits(n: nat, b: nat, k: nat, p: nat, j: nat)
    requires p > 0 && AllFit(n, Blocks(b, k), p) && j < k
    ensures b <= Room(n + j * b, p)
    decreases k
  {
    if j > 0 {
      assert Blocks(b, k)[1..] == Blocks(b, k - 1);
      EachBlockFits(n + b, b, k - 1, p, j - 1);
      assert n + b + (j - 1) * b == n + j * b;
    }
  }

  // Where b does not divide a buffer of m bytes, a block straddles its end.
  lemma Straddles(m: nat, b: nat)
    requires b > 0 && m % b != 0
    ensures var n := m / b * b; n < m < n + b
  {}

  // Any number of blocks of one size fits exactly when the size divides 8 MiB and
  // the part size, and parts have at least 8 MiB.
  lemma BlocksFit(b: nat, p: nat)
    requires p > 0 && b > 0
    ensures (forall k: nat :: AllFit(0, Blocks(b, k), p)) <==> p >= MB_8 && MB_8 % b == 0 && p % b == 0
  {
    if p >= MB_8 && MB_8 % b == 0 && p % b == 0 {
      forall k: nat ensures AllFit(0, Blocks(b, k), p) { AlignedWritesFit(0, Blocks(b, k), p, b); }
    } else {
      var j := if MB_8 % b != 0 || p < MB_8 then MB_8 / b else p / b;
      BlockOverruns(b, p, j);
      if AllFit(0, Blocks(b, j + 1), p) { EachBlockFits(0, b, j + 1, p, j); }
    }
  }

  lemma BlockOverruns(b: nat, p: nat, j: nat)
    requires p > 0 && b > 0 && (p < MB_8 || MB_8 % b != 0 || p % b != 0)
    requires j == if MB_8 % b != 0 || p < MB_8 then MB_8 / b else p / b
    ensures Room(j * b, p) < b
  {
    if MB_8 % b != 0 {
      Straddles(MB_8, b);
    } else if p >= MB_8 {
      Straddles(p, b);
      ModProduct(p / b, b, b);
      if j * b < MB_8 { MultipleGap(MB_8, j * b, b); }
    }
  }

  // The alignment is needed: a second write of 5 MiB does not fit the 8 MiB buffer.
  lemma UnalignedWriteDoesNotFit()
    ensures !AllFit(0, [5 * 1024 * 1024, 5 * 1024 * 1024], MB_8)
  {
    var w := 5 * 1024 * 1024;
    assert [w, w][1..] == [w];
  }
}

// One directory level: the file tree that a page of a listing describes, what
// all the pages of a refresh describe together, and what a refresh leaves.
module Level {
  import opened Basics
  import opened Listing
  import opened DentryTree
  import opened Merge
  import opened Sweep
  import opened Refresh
  import opened Paths
  import opened Lookup
  import opened Coherence
  import opened SequentialStream

  function NameOf(prefix: Key, e: Key): string
    requires prefix < e
  {
    if IsCommonPrefix(e) then e[|prefix|..|e| - 1] else e[|prefix|..]
  }

  function PageNames(prefix: Key, entries: set<Key>): set<string> {
    set e | e in entries && prefix < e && NameOf(prefix, e) != "" :: NameOf(prefix, e)
  }

  // A file wins over a common prefix of the same page.
  function NodeFor(b: Bucket, prefix: Key, entries: set<Key>, n: string): FTree {
    var k := prefix + n;
    if k in entries then FTree(false, Reported(b, k), if k in b.objects then |b.objects[k]| else 0, map[])
    else FTree(true, None, 0, map[])
  }

  function PageTree(b: Bucket, prefix: Key, entries: set<Key>): map<string, FTree> {
    map n | n in PageNames(prefix, entries) :: NodeFor(b, prefix, entries, n)
  }

  // Names of entries, as entries see them.
  lemma EntryNames(keys: set<Key>, prefix: Key, entries: set<Key>, n: string)
    requires entries <= EntrySet(keys, prefix, true)
    ensures n in PageNames(prefix, entries) <==>
            ValidName(n) && (prefix + n in entries || prefix + n + "/" in entries)
  {
    if n in PageNames(prefix, entries) {
      var e :| e in entries && prefix < e && NameOf(prefix, e) == n && n != "";
      NameOfEntry(keys, prefix, e);
    }
    if ValidName(n) {
      NameOfKeys(prefix, n);
    }
  }

  lemma NameOfEntry(keys: set<Key>, prefix: Key, e: Key)
    requires e in EntrySet(keys, prefix, true) && prefix < e
    ensures var n := NameOf(prefix, e); '/' !in n && (e == prefix + n || e == prefix + n + "/")
  {
    var m := EntryShape(keys, prefix, e);
    if IsCommonPrefix(e) {
      assert e[|prefix|..|e| - 1] == m;
    } else {
      assert e[|prefix|..] == m;
    }
  }

  lemma NameOfKeys(prefix: Key, n: string)
    requires ValidName(n)
    ensures prefix < prefix + n && NameOf(prefix, prefix + n) == n
    ensures prefix < prefix + n + "/" && NameOf(prefix, prefix + n + "/") == n
  {
    var f, e := prefix + n, prefix + n + "/";
    assert f[|prefix|..] == n && f[|f| - 1] == n[|n| - 1];
    assert e[|prefix|..|e| - 1] == n;
  }

  // ---- What the pages seen so far say about the level -----------------------------------

  ghost predicate NameInfo(info: Info, b: Bucket, prefix: Key, seen: set<Key>, n: string) {
    && [n] in info
    && (info[[n]].isDir <==> prefix + n !in seen)
    && info[[n]].mode == (if info[[n]].isDir then None else Reported(b, prefix + n))
  }

  ghost predicate LevelInfo(info: Info, b: Bucket, prefix: Key, seen: set<Key>) {
    && (forall q :: q in info ==> |q| == 1 && q[0] in PageNames(prefix, seen))
    && (forall n :: n in PageNames(prefix, seen) ==> NameInfo(info, b, prefix, seen, n))
  }

  lemma PageLevel(b: Bucket, prefix: Key, entries: set<Key>)
    ensures LevelInfo(TreeInfo(PageTree(b, prefix, entries)), b, prefix, entries)
  {
    var ts := PageTree(b, prefix, entries);
    forall q | q in TreeInfo(ts) ensures |q| == 1 && q[0] in PageNames(prefix, entries) {
      assert InfoAt(ts, q).Some?;
    }
    forall n | n in PageNames(prefix, entries) ensures NameInfo(TreeInfo(ts), b, prefix, entries, n) {
      assert InfoAt(ts, [n]).Some?;
    }
  }

  // The next page adds its names. Kinds never change on the way, because a file
  // comes before the common prefix of the same name in key order.
  lemma NextPage(info: Info, b: Bucket, keys: set<Key>, prefix: Key, seen: set<Key>, page: set<Key>)
    requires seen + page <= EntrySet(keys, prefix, true)
    requires LevelInfo(info, b, prefix, seen)
    requires forall e, f :: e in seen && f in page ==> Less(e, f)
    ensures LevelInfo(Then(info, TreeInfo(PageTree(b, prefix, page))), b, prefix, seen + page)
  {
    var next := TreeInfo(PageTree(b, prefix, page));
    var all := Then(info, next);
    PageLevel(b, prefix, page);
    forall n
      ensures n in PageNames(prefix, seen + page) <==> n in PageNames(prefix, seen) || n in PageNames(prefix, page)
    {
      EntryNames(keys, prefix, seen, n);
      EntryNames(keys, prefix, page, n);
      EntryNames(keys, prefix, seen + page, n);
    }
    forall n | n in PageNames(prefix, seen + page) ensures NameInfo(all, b, prefix, seen + page, n) {
      EntryNames(keys, prefix, seen, n);
      EntryNames(keys, prefix, page, n);
      FileFirst(prefix, n, seen, page);
      if n in PageNames(prefix, seen) { assert NameInfo(info, b, prefix, seen, n); }
      if n in PageNames(prefix, page) { assert NameInfo(next, b, prefix, page, n); }
      assert [n] in next ==> [n][0] in PageNames(prefix, page);
      assert [n] in info ==> [n][0] in PageNames(prefix, seen);
    }
  }

  lemma FileFirst(prefix: Key, n: string, seen: set<Key>, page: set<Key>)
    requires forall e, f :: e in seen && f in page ==> Less(e, f)
    ensures !(prefix + n + "/" in seen && prefix + n in page)
    ensures !(prefix + n in seen && prefix + n in page)
  {
    var f := prefix + n;
    LessExtension(f, "/");
    LessIrreflexive(f);
    if f + "/" in seen && f in page {
      LessTransitive(f, f + "/", f);
    }
  }

  // What a page describes can always be merged into a directory.
  lemma PageMergeable(c: Cache, b: Bucket, keys: set<Key>, d: InodeID, prefix: Key, page: set<Key>)
    requires page <= EntrySet(keys, prefix, true) && d in c.nodes && IsDirMode(c.nodes[d].mode)
    ensures Mergeable(c, d, PageTree(b, prefix, page))
  {
    var ts := PageTree(b, prefix, page);
    PageLevel(b, prefix, page);
    forall q: seq<string> ensures PathMergeable(c, d, ts, q) {
      if q in TreeInfo(ts) {
        EntryNames(keys, prefix, page, q[0]);
        assert q[..|q| - 1] == [];
      }
    }
  }

  // ---- The whole level -------------------------------------------------------------------

  lemma ListedNames(keys: set<Key>, prefix: Key, n: string)
    ensures n in PageNames(prefix, EntrySet(keys, prefix, true)) <==> ValidName(n) && KindAt(keys, prefix, n).Some?
    ensures ValidName(n) ==>
              (KindAt(keys, prefix, n) == Some(File) <==> prefix + n in EntrySet(keys, prefix, true))
  {
    EntryNames(keys, prefix, EntrySet(keys, prefix, true), n);
    if ValidName(n) {
      FileEntry(keys, prefix, n);
      DirEntry(keys, prefix, n);
    }
  }

  // ---- Page by page ------------------------------------------------------------------------

  // What the merges of these pages add up to.
  ghost function Merged(b: Bucket, prefix: Key, info: Info, pages: seq<Page>): Info
    decreases |pages|
  {
    if pages == [] then info
    else Merged(b, prefix, Then(info, PageInfo(b, prefix, pages[0])), pages[1..])
  }

  ghost function PageInfo(b: Bucket, prefix: Key, p: Page): Info {
    TreeInfo(PageTree(b, prefix, Elements(p.entries)))
  }

  // What a refresh merges: all pages of max entries of the one-level listing.
  ghost function PagedInfo(b: Bucket, prefix: Key, max: nat): Info
    requires max >= 1
  {
    Merged(b, prefix, imap[], Pages(EntrySet(Keys(b), prefix, true), "", max))
  }

  lemma PagesNext(b: Bucket, prefix: Key, info: Info, entries: set<Key>, marker: Key, max: nat, p: Page)
    requires max >= 1 && p == PageAfter(entries, marker, max)
    ensures !p.isTrunc ==> Merged(b, prefix, info, Pages(entries, marker, max)) == Then(info, PageInfo(b, prefix, p))
    ensures p.isTrunc ==>
              Merged(b, prefix, info, Pages(entries, marker, max))
              == Merged(b, prefix, Then(info, PageInfo(b, prefix, p)), Pages(entries, p.nextMarker, max))
  {
    if p.isTrunc {
      PageStep(entries, marker, max, p, Sorted(Remaining(entries, marker)));
      MergedCons(b, prefix, info, p, Pages(entries, p.nextMarker, max));
    } else {
      MergedCons(b, prefix, info, p, []);
    }
  }

  lemma MergedCons(b: Bucket, prefix: Key, info: Info, p: Page, rest: seq<Page>)
    ensures Merged(b, prefix, info, [p] + rest) == Merged(b, prefix, Then(info, PageInfo(b, prefix, p)), rest)
  {
    assert ([p] + rest)[1..] == rest;
  }

  // What the merges so far have made of the cache.
  ghost predicate SoFar(c: Cache, m: Cache, d: InodeID, b: Bucket, prefix: Key, seen: set<Key>, started: bool,
                        info: Info) {
    if started then MergedBy(c, m, d, info) && LevelInfo(info, b, prefix, seen)
    else m == c && seen == {} && info == imap[]
  }

  lemma ThenNothing(a: Info)
    ensures Then(imap[], a) == a
  {}

  // One page more.
  lemma NextMerge(c: Cache, m: Cache, n: Cache, d: InodeID, b: Bucket, prefix: Key, seen: set<Key>, page: set<Key>,
                  started: bool, info: Info)
    requires Tree(c) && seen + page <= EntrySet(Keys(b), prefix, true)
    requires forall e, f :: e in seen && f in page ==> Less(e, f)
    requires SoFar(c, m, d, b, prefix, seen, started, info)
    requires MergedBy(m, n, d, TreeInfo(PageTree(b, prefix, page)))
    ensures SoFar(c, n, d, b, prefix, seen + page, true, Then(info, TreeInfo(PageTree(b, prefix, page))))
  {
    var next := TreeInfo(PageTree(b, prefix, page));
    if started {
      Compose(c, m, n, d, info, next);
      NextPage(info, b, Keys(b), prefix, seen, page);
    } else {
      PageLevel(b, prefix, page);
      assert {} + page == page;
      ThenNothing(next);
    }
  }

  // All pages are merged.
  ghost predicate Complete(c: Cache, m: Cache, d: InodeID, b: Bucket, prefix: Key, max: nat)
    requires max >= 1
  {
    && MergedBy(c, m, d, PagedInfo(b, prefix, max))
    && LevelInfo(PagedInfo(b, prefix, max), b, prefix, EntrySet(Keys(b), prefix, true))
  }

  // Page k is followed by the page after its marker, or is the last.
  ghost predicate Link(pages: seq<Page>, infos: seq<Info>, b: Bucket, prefix: Key, max: nat, k: nat)
    requires max >= 1 && k < |pages| == |infos|
  {
    && (pages[k].isTrunc <==> k + 1 < |pages|)
    && (pages[k].isTrunc ==>
          && pages[k + 1] == PageAfter(EntrySet(Keys(b), prefix, true), pages[k].nextMarker, max)
          && infos[k + 1] == Then(infos[k], PageInfo(b, prefix, pages[k])))
  }

  // The pages of a listing, and what the merges add up to before each of them.
  ghost predicate Chain(pages: seq<Page>, infos: seq<Info>, b: Bucket, prefix: Key, max: nat)
    requires max >= 1
  {
    && |pages| == |infos| >= 1
    && forall k {:trigger Link(pages, infos, b, prefix, max, k)} ::
         0 <= k < |pages| ==> Link(pages, infos, b, prefix, max, k)
  }

  // What the last merge of a chain makes of what came before.
  ghost function Whole(pages: seq<Page>, infos: seq<Info>, b: Bucket, prefix: Key): Info
    requires |pages| == |infos| >= 1
  {
    Then(Last(infos), PageInfo(b, prefix, Last(pages)))
  }

  function Last<T>(s: seq<T>): T
    requires s != []
  {
    s[|s| - 1]
  }

  // A page before a chain.
  lemma ChainCons(p: Page, info: Info, rest: seq<Page>, more: seq<Info>, b: Bucket, prefix: Key, max: nat)
    returns (pages: seq<Page>, infos: seq<Info>)
    requires max >= 1 && Chain(rest, more, b, prefix, max) && p.isTrunc
    requires rest[0] == PageAfter(EntrySet(Keys(b), prefix, true), p.nextMarker, max)
    requires more[0] == Then(info, PageInfo(b, prefix, p))
    ensures Chain(pages, infos, b, prefix, max) && pages == [p] + rest && infos[0] == info
    ensures Whole(pages, infos, b, prefix) == Whole(rest, more, b, prefix)
  {
    pages, infos := [p] + rest, [info] + more;
    AllLinked(pages, infos, p, info, rest, more, b, prefix, max);
    WholeCons(p, info, rest, more, b, prefix);
  }

  lemma WholeCons(p: Page, info: Info, rest: seq<Page>, more: seq<Info>, b: Bucket, prefix: Key)
    requires |rest| == |more| >= 1
    ensures Whole([p] + rest, [info] + more, b, prefix) == Whole(rest, more, b, prefix)
  {
    LastOfCons(p, rest);
    LastOfCons(info, more);
  }

  lemma LastOfCons<T>(x: T, s: seq<T>)
    requires s != []
    ensures Last([x] + s) == Last(s)
  {}

  lemma AllLinked(pages: seq<Page>, infos: seq<Info>, p: Page, info: Info, rest: seq<Page>, more: seq<Info>,
                  b: Bucket, prefix: Key, max: nat)
    requires pages == [p] + rest && infos == [info] + more
    requires max >= 1 && Chain(rest, more, b, prefix, max) && p.isTrunc
    requires rest[0] == PageAfter(EntrySet(Keys(b), prefix, true), p.nextMarker, max)
    requires more[0] == Then(info, PageInfo(b, prefix, p))
    ensures Chain(pages, infos, b, prefix, max)
  {
    forall k | 0 <= k < |pages| ensures Link(pages, infos, b, prefix, max, k) {
      if k > 0 {
        LinkShift(pages, infos, rest, more, b, prefix, max, k - 1);
      } else {
        assert pages[0] == p && pages[1] == rest[0] && infos[0] == info && infos[1] == more[0];
      }
    }
  }

  lemma LinkShift(pages: seq<Page>, infos: seq<Info>, rest: seq<Page>, more: seq<Info>,
                  b: Bucket, prefix: Key, max: nat, k: nat)
    requires max >= 1 && Chain(rest, more, b, prefix, max) && k < |rest|
    requires |pages| == |infos| == |rest| + 1 && pages[1..] == rest && infos[1..] == more
    ensures Link(pages, infos, b, prefix, max, k + 1)
  {
    assert Link(rest, more, b, prefix, max, k);
    assert pages[k + 1] == rest[k] && infos[k + 1] == more[k];
    if k + 1 < |rest| {
      assert pages[k + 2] == rest[k + 1] && infos[k + 2] == more[k + 1];
    }
  }

  lemma {:induction false} ChainOf(b: Bucket, prefix: Key, marker: Key, max: nat, info: Info, whole: Info)
    returns (pages: seq<Page>, infos: seq<Info>)
    requires max >= 1
    requires whole == Merged(b, prefix, info, Pages(EntrySet(Keys(b), prefix, true), marker, max))
    ensures Chain(pages, infos, b, prefix, max) && infos[0] == info
    ensures pages == Pages(EntrySet(Keys(b), prefix, true), marker, max)
    ensures pages[0] == PageAfter(EntrySet(Keys(b), prefix, true), marker, max)
    ensures Whole(pages, infos, b, prefix) == whole
    decreases |Remaining(EntrySet(Keys(b), prefix, true), marker)|
  {
    var entries := EntrySet(Keys(b), prefix, true);
    var p := PageAfter(entries, marker, max);
    var next := Then(info, PageInfo(b, prefix, p));
    PagesNext(b, prefix, info, entries, marker, max, p);
    if p.isTrunc {
      PageStep(entries, marker, max, p, Sorted(Remaining(entries, marker)));
      var rest, more := ChainOf(b, prefix, p.nextMarker, max, next, whole);
      pages, infos := ChainCons(p, info, rest, more, b, prefix, max);
    } else {
      pages, infos := [p], [info];
      assert Link(pages, infos, b, prefix, max, 0);
    }
  }

  // Where page k is asked for.
  function MarkerOf(pages: seq<Page>, k: nat): Key
    requires k <= |pages|
  {
    if k == 0 then "" else pages[k - 1].nextMarker
  }

  // The calls for the first k pages: each asks for what comes after the last one.
  function PageCalls(pages: seq<Page>, prefix: Key, k: nat): seq<Call>
    requires k <= |pages|
  {
    seq(k, i requires 0 <= i < k => Call.ListObjects(prefix, true, MarkerOf(pages, i)))
  }

  // The calls of a refresh: one for each page of the one-level listing.
  ghost function ListingCalls(b: Bucket, prefix: Key, max: nat): seq<Call>
    requires max >= 1
  {
    var pages := Pages(EntrySet(Keys(b), prefix, true), "", max);
    PageCalls(pages, prefix, |pages|)
  }

  // So many calls as it takes pages of max entries, and one for an empty directory.
  lemma ListingCost(b: Bucket, prefix: Key, max: nat, n: nat)
    requires max >= 1 && n == |EntrySet(Keys(b), prefix, true)|
    ensures |ListingCalls(b, prefix, max)| == if n == 0 then 1 else (n + max - 1) / max
  {
    var entries := EntrySet(Keys(b), prefix, true);
    SeenStart(entries);
    PageCount(entries, "", max, n);
  }

  function Ceil(n: nat, max: nat): nat
    requires max >= 1
  {
    if n == 0 then 1 else (n + max - 1) / max
  }

  lemma CeilStep(n: nat, max: nat)
    requires max >= 1
    ensures n > max ==> Ceil(n, max) == 1 + Ceil(n - max, max)
    ensures n <= max ==> Ceil(n, max) == 1
  {
    if n > max {
      DivStep(n + max - 1, max);
    } else if n > 0 {
      DivUnique(n + max - 1, max, 1, n - 1);
    }
  }

  lemma {:induction false} PageCount(entries: set<Key>, marker: Key, max: nat, n: nat)
    requires max >= 1 && n == |Remaining(entries, marker)|
    ensures |Pages(entries, marker, max)| == Ceil(n, max)
    decreases n
  {
    var p, r := PageAfter(entries, marker, max), Sorted(Remaining(entries, marker));
    PageStep(entries, marker, max, p, r);
    CeilStep(n, max);
    if p.isTrunc {
      assert |Remaining(entries, p.nextMarker)| == |r[max..]| == n - max;
      PageCount(entries, p.nextMarker, max, n - max);
    }
  }

  // The merge is at page k of the chain.
  ghost predicate AtPage(c: Cache, m: Cache, d: InodeID, b: Bucket, prefix: Key, marker: Key, max: nat,
                         pages: seq<Page>, infos: seq<Info>, k: nat)
    requires max >= 1
  {
    && k < |pages| == |infos| && pages[k] == PageAfter(EntrySet(Keys(b), prefix, true), marker, max)
    && SoFar(c, m, d, b, prefix, Seen(EntrySet(Keys(b), prefix, true), marker), k > 0, infos[k])
  }

  // Page k of the chain is merged.
  lemma ChainStep(c: Cache, m: Cache, n: Cache, d: InodeID, b: Bucket, prefix: Key, marker: Key, max: nat,
                  pages: seq<Page>, infos: seq<Info>, k: nat)
    requires Tree(c) && max >= 1 && Chain(pages, infos, b, prefix, max)
    requires AtPage(c, m, d, b, prefix, marker, max, pages, infos, k)
    requires MergedBy(m, n, d, PageInfo(b, prefix, pages[k]))
    ensures pages[k].isTrunc ==> AtPage(c, n, d, b, prefix, pages[k].nextMarker, max, pages, infos, k + 1)
    ensures !pages[k].isTrunc ==>
              SoFar(c, n, d, b, prefix, EntrySet(Keys(b), prefix, true), true, Whole(pages, infos, b, prefix))
  {
    var entries, p := EntrySet(Keys(b), prefix, true), pages[k];
    assert Link(pages, infos, b, prefix, max, k);
    SeenStep(entries, marker, max, p);
    PageCovers(entries, marker, max, p);
    NextMerge(c, m, n, d, b, prefix, Seen(entries, marker), Elements(p.entries), k > 0, infos[k]);
  }

  // A refresh: merges of all pages that the bucket lists at d, then the sweep.
  ghost predicate RefreshedWith(c: Cache, s: Cache, d: InodeID, b: Bucket, max: nat, ttl: Time, m: Cache) {
    && max >= 1 && Tree(m) && Complete(c, m, d, b, DirPrefix(c, d), max)
    && s == Swept(m, d, ttl)
  }

  // Every directory can be refreshed, whatever the bucket holds.
  lemma RefreshHappens(c: Cache, d: InodeID, b: Bucket, max: nat, ttl: Time) returns (s: Cache, m: Cache)
    requires Tree(c) && d in c.nodes && IsDirMode(c.nodes[d].mode) && max >= 1
    ensures RefreshedWith(c, s, d, b, max, ttl, m)
  {
    var prefix := DirPrefix(c, d);
    var entries := EntrySet(Keys(b), prefix, true);
    SeenStart(entries);
    var pages, infos := ChainOf(b, prefix, "", max, imap[], PagedInfo(b, prefix, max));
    m := ChainHappens(c, c, d, b, prefix, "", max, pages, infos, 0);
    s := Swept(m, d, ttl);
  }

  lemma {:induction false} ChainHappens(c: Cache, m: Cache, d: InodeID, b: Bucket, prefix: Key, marker: Key, max: nat,
                                        pages: seq<Page>, infos: seq<Info>, k: nat)
    returns (n: Cache)
    requires Tree(c) && Tree(m) && d in m.nodes && IsDirMode(m.nodes[d].mode) && max >= 1
    requires Chain(pages, infos, b, prefix, max) && AtPage(c, m, d, b, prefix, marker, max, pages, infos, k)
    ensures Tree(n)
    ensures SoFar(c, n, d, b, prefix, EntrySet(Keys(b), prefix, true), true, Whole(pages, infos, b, prefix))
    decreases |pages| - k
  {
    var p := pages[k];
    PageCovers(EntrySet(Keys(b), prefix, true), marker, max, p);
    PageMergeable(m, b, Keys(b), d, prefix, Elements(p.entries));
    n := MergeExists(m, d, FTree(true, None, 0, PageTree(b, prefix, Elements(p.entries))));
    ChainStep(c, m, n, d, b, prefix, marker, max, pages, infos, k);
    if p.isTrunc {
      n := ChainHappens(c, n, d, b, prefix, p.nextMarker, max, pages, infos, k + 1);
    }
  }

  lemma RefreshTree(c: Cache, s: Cache, d: InodeID, b: Bucket, max: nat, ttl: Time, m: Cache)
    requires Tree(c) && d in c.nodes && RefreshedWith(c, s, d, b, max, ttl, m)
    ensures Tree(s) && d in s.nodes
  {
    SweptTree(m, d, ttl);
  }

  // The directory was listed completely and its time is not up.
  ghost predicate Live(c: Cache, d: InodeID, now: Time) {
    d in c.nodes && c.nodes[d].complete && now <= c.nodes[d].ttl
  }

  ghost predicate Marked(c: Cache, d: InodeID, n: string) {
    d in c.nodes && n in c.nodes[d].children && c.nodes[d].children[n] in c.nodes
    && c.nodes[c.nodes[d].children[n]].synced
  }

  lemma WalkOne(c: Cache, d: InodeID, n: string)
    requires d in c.nodes
    ensures Walk(c, d, [n]) == if n in c.nodes[d].children then Some(c.nodes[d].children[n]) else None
  {
    assert [n][1..] == [];
    if n in c.nodes[d].children {
      assert Walk(c, d, [n]) == Walk(c, c.nodes[d].children[n], []);
    }
  }

  // What a refresh leaves in a directory, name by name: what the bucket lists,
  // and what was cached with a mark from before. Cached children that stay
  // keep their id and their kind; new ones get new ids and the listed kind.
  lemma RefreshedNames(c: Cache, s: Cache, d: InodeID, b: Bucket, max: nat, ttl: Time, m: Cache, n: string)
    requires Tree(c) && d in c.nodes && RefreshedWith(c, s, d, b, max, ttl, m) && ValidName(n)
    ensures d in s.nodes
    ensures n in s.nodes[d].children <==> KindAt(Keys(b), DirPrefix(c, d), n).Some? || Marked(c, d, n)
    ensures n in s.nodes[d].children && n in c.nodes[d].children ==>
              s.nodes[d].children[n] == c.nodes[d].children[n] && ChildKind(s, d, n) == ChildKind(c, d, n)
    ensures n in s.nodes[d].children && n !in c.nodes[d].children ==>
              c.next <= s.nodes[d].children[n] && ChildKind(s, d, n) == KindAt(Keys(b), DirPrefix(c, d), n)
  {
    var prefix := DirPrefix(c, d);
    var info := PagedInfo(b, prefix, max);
    MergeThenSweep(c, m, d, info, ttl, [n]);
    ListedNames(Keys(b), prefix, n);
    WalkOne(c, d, n);
    WalkOne(m, d, n);
    assert PathMerged(c, m, d, info, [n]);
    assert Kept(m, d, d);
    WalkOne(s, d, n);
    assert [n][..1] == [n];
    assert Survives(c, d, info, [n]) <==> ListedOrMarked(c, d, info, [n]) by {
      forall i | 0 < i <= |[n]| ensures [n][..i] == [n] {}
    }
    if n in c.nodes[d].children { ChildNames(c, d, n); }
    if n in m.nodes[d].children { ChildNames(m, d, n); }
    if [n] in info {
      assert [n][0] in PageNames(prefix, EntrySet(Keys(b), prefix, true));
      ObjModeKind(info[[n]].isDir, info[[n]].mode);
    }
    if n in PageNames(prefix, EntrySet(Keys(b), prefix, true)) {
      assert NameInfo(info, b, prefix, EntrySet(Keys(b), prefix, true), n);
    }
    if n in s.nodes[d].children {
      SweptKind(m, d, ttl, n);
    }
  }

  // A child that a merge of one level made has no children of its own, and was
  // not listed yet.
  lemma MadeBare(c: Cache, m: Cache, d: InodeID, info: Info, n: string, x: InodeID)
    requires Tree(c) && Tree(m) && d in c.nodes && d in m.nodes && MergedBy(c, m, d, info)
    requires forall j :: [n, j] !in info
    requires n !in c.nodes[d].children && n in m.nodes[d].children && m.nodes[d].children[n] == x && x in m.nodes
    ensures m.nodes[x].children == map[] && !m.nodes[x].complete
  {
    WalkOne(m, d, n);
    WalkOne(c, d, n);
    assert PathMerged(c, m, d, info, [n]);
    forall j ensures j !in m.nodes[x].children {
      assert [n, j][1..] == [j];
      assert PathMerged(c, m, d, info, [n, j]);
      WalkOne(m, x, j);
    }
  }

  lemma NewChildBare(c: Cache, s: Cache, d: InodeID, b: Bucket, max: nat, ttl: Time, m: Cache, n: string)
    requires Tree(c) && d in c.nodes && RefreshedWith(c, s, d, b, max, ttl, m) && n !in c.nodes[d].children
    requires d in s.nodes && n in s.nodes[d].children && s.nodes[d].children[n] in s.nodes
    ensures s.nodes[s.nodes[d].children[n]].children == map[] && !s.nodes[s.nodes[d].children[n]].complete
  {
    ChildNames(m, d, n);
    MadeBare(c, m, d, PagedInfo(b, DirPrefix(c, d), max), n, m.nodes[d].children[n]);
  }

  // Directories that a refresh of the root leaves are marked.
  lemma SweptMarked(c: Cache, s: Cache, b: Bucket, max: nat, ttl: Time, m: Cache, n: string)
    requires Tree(c) && RefreshedWith(c, s, ROOT, b, max, ttl, m) && ChildKind(s, ROOT, n) == Some(Dir)
    ensures Marked(s, ROOT, n)
  {
    AllBelowRoot(m, s.nodes[ROOT].children[n]);
  }

  lemma SweptKind(m: Cache, d: InodeID, ttl: Time, n: string)
    requires Tree(m) && d in m.nodes && d in Swept(m, d, ttl).nodes && n in Swept(m, d, ttl).nodes[d].children
    ensures ChildKind(Swept(m, d, ttl), d, n) == ChildKind(m, d, n)
  {
    assert n in MarkedChildren(m, d);
    ChildNames(m, d, n);
    var x := m.nodes[d].children[n];
    assert Kept(m, d, x) && Below(m, d, x);
  }

  // ---- Sizes ---------------------------------------------------------------------------------

  // What one page says about a name's size.
  lemma PageSize(b: Bucket, keys: set<Key>, prefix: Key, info: Info, p: Page, n: string)
    requires ValidName(n) && Elements(p.entries) <= EntrySet(keys, prefix, true)
    ensures var f, e, next := prefix + n, prefix + n + "/", Then(info, PageInfo(b, prefix, p));
            && (f !in p.entries && e !in p.entries ==> ([n] in next <==> [n] in info))
            && (f !in p.entries && e !in p.entries && [n] in info ==> next[[n]].size == info[[n]].size)
            && (f in p.entries && f in b.objects ==> [n] in next && next[[n]].size == |b.objects[f]|)
            && (f !in p.entries && e in p.entries ==> [n] in next && next[[n]].size == 0)
  {
    var page := Elements(p.entries);
    EntryNames(keys, prefix, page, n);
    var ts := PageTree(b, prefix, page);
    assert [n] in TreeInfo(ts) <==> n in ts;
    if n in ts { assert TreeInfo(ts)[[n]].size == ts[n].size; }
  }

  // The entries of the first page are the first max that remain.
  lemma FirstPage(entries: set<Key>, marker: Key, max: nat, p: Page, r: seq<Key>)
    requires max >= 1 && p == PageAfter(entries, marker, max) && r == Sorted(Remaining(entries, marker))
    ensures forall i :: 0 <= i < |r| ==> (r[i] in p.entries <==> i < max)
    ensures forall k :: k in p.entries ==> k in r
    ensures Elements(p.entries) <= entries
    ensures p.isTrunc <==> |r| > max
    ensures p.isTrunc ==> r[max..] == Sorted(Remaining(entries, p.nextMarker))
  {
    PageStep(entries, marker, max, p, r);
    forall i | 0 <= i < |r| ensures r[i] in p.entries <==> i < max {
      if p.isTrunc { PrefixHolds(r, max, i); }
    }
  }

  lemma PrefixHolds(r: seq<Key>, k: nat, i: nat)
    requires Ascending(r) && k <= |r| && i < |r|
    ensures r[i] in r[..k] <==> i < k
  {
    if i < k {
      assert r[..k][i] == r[i];
    } else if r[i] in r[..k] {
      var j :| 0 <= j < k && r[..k][j] == r[i];
      LessIrreflexive(r[i]);
    }
  }

  // Where a name's two entries are among those that remain, if they are.
  datatype Spot = Spot(file: Option<nat>, dir: Option<nat>)

  ghost predicate SpotIn(r: seq<Key>, prefix: Key, n: string, at: Spot) {
    && (at.file.Some? ==> at.file.value < |r| && r[at.file.value] == prefix + n)
    && (at.dir.Some? ==> at.dir.value < |r| && r[at.dir.value] == prefix + n + "/")
    && (at.file.None? ==> prefix + n !in r)
    && (at.dir.None? ==> prefix + n + "/" !in r)
  }

  function Behind(i: Option<nat>, max: nat): Option<nat> {
    if i.Some? && i.value >= max then Some(i.value - max) else None
  }

  // The last page that mentions the name decides: it sets the object's size if
  // the file is on it, and 0 if only the directory is.
  function SizeAt(at: Spot, max: nat, size: nat): nat
    requires max >= 1
  {
    if at.dir.None? || (at.file.Some? && at.file.value / max == at.dir.value / max) then size else 0
  }

  lemma SpotBehind(r: seq<Key>, prefix: Key, n: string, at: Spot, max: nat)
    requires Ascending(r) && max < |r| && SpotIn(r, prefix, n, at)
    ensures SpotIn(r[max..], prefix, n, Spot(Behind(at.file, max), Behind(at.dir, max)))
  {
    var f, e := prefix + n, prefix + n + "/";
    forall k | k in r[max..] ensures k in r {}
    if f in r[max..] {
      var i :| 0 <= i < |r[max..]| && r[max..][i] == f;
      AboveIth(r, max + i, at.file.value);
      AboveIth(r, at.file.value, max + i);
      LessIrreflexive(f);
    }
    if e in r[max..] {
      var i :| 0 <= i < |r[max..]| && r[max..][i] == e;
      AboveIth(r, max + i, at.dir.value);
      AboveIth(r, at.dir.value, max + i);
      LessIrreflexive(e);
    }
  }

  lemma FileBeforeDir(r: seq<Key>, prefix: Key, n: string, at: Spot)
    requires Ascending(r) && SpotIn(r, prefix, n, at) && at.file.Some? && at.dir.Some?
    ensures at.file.value < at.dir.value
  {
    LessExtension(prefix + n, "/");
    AboveIth(r, at.file.value, at.dir.value);
  }

  lemma PageNumbers(i: Option<nat>, max: nat)
    requires max >= 1
    ensures i.Some? && i.value < max ==> i.value / max == 0
    ensures i.Some? && i.value >= max ==> i.value / max == (i.value - max) / max + 1
  {
    if i.Some? && i.value >= max { SequentialStream.DivStep(i.value, max); }
    if i.Some? && i.value < max { SequentialStream.DivUnique(i.value, max, 0, i.value); }
  }

  // What is left to decide after the first page.
  lemma SizeBehind(at: Spot, max: nat, size: nat)
    requires max >= 1 && (at.file.Some? && at.dir.Some? ==> at.file.value < at.dir.value)
    ensures var rest := Spot(Behind(at.file, max), Behind(at.dir, max));
            if rest == Spot(None, None)
            then at != rest ==> SizeAt(at, max, size) == if at.file.Some? then size else 0
            else SizeAt(at, max, size) == SizeAt(rest, max, size)
  {
    PageNumbers(at.file, max);
    PageNumbers(at.dir, max);
  }

  lemma {:induction false} PagedSize(b: Bucket, keys: set<Key>, prefix: Key, n: string, info: Info,
                                     entries: set<Key>, marker: Key, max: nat, at: Spot)
    requires max >= 1 && ValidName(n) && prefix + n in b.objects && entries == EntrySet(keys, prefix, true)
    requires SpotIn(Sorted(Remaining(entries, marker)), prefix, n, at)
    ensures var all := Merged(b, prefix, info, Pages(entries, marker, max));
            if at.file.None? && at.dir.None?
            then ([n] in all <==> [n] in info) && ([n] in info ==> all[[n]].size == info[[n]].size)
            else [n] in all && all[[n]].size == SizeAt(at, max, |b.objects[prefix + n]|)
    decreases |Remaining(entries, marker)|
  {
    var r := Sorted(Remaining(entries, marker));
    var p := PageAfter(entries, marker, max);
    var next := Then(info, PageInfo(b, prefix, p));
    FirstPage(entries, marker, max, p, r);
    PagesNext(b, prefix, info, entries, marker, max, p);
    PageSize(b, keys, prefix, info, p, n);
    if at.file.Some? && at.dir.Some? { FileBeforeDir(r, prefix, n, at); }
    SizeBehind(at, max, |b.objects[prefix + n]|);
    if p.isTrunc {
      SpotBehind(r, prefix, n, at, max);
      PagedSize(b, keys, prefix, n, next, entries, p.nextMarker, max, Spot(Behind(at.file, max), Behind(at.dir, max)));
    }
  }

  // A listed name gets the size that the pages say.
  lemma ListedSize(c: Cache, s: Cache, d: InodeID, b: Bucket, max: nat, ttl: Time, m: Cache, n: string)
    requires Tree(c) && d in c.nodes && RefreshedWith(c, s, d, b, max, ttl, m) && ValidName(n)
    requires [n] in PagedInfo(b, DirPrefix(c, d), max)
    ensures d in s.nodes && n in s.nodes[d].children && s.nodes[d].children[n] in s.nodes
    ensures s.nodes[s.nodes[d].children[n]].size == PagedInfo(b, DirPrefix(c, d), max)[[n]].size
  {
    var info := PagedInfo(b, DirPrefix(c, d), max);
    SweptTree(m, d, ttl);
    assert PathMerged(c, m, d, info, [n]);
    WalkOne(m, d, n);
    WalkOne(c, d, n);
    assert n in MarkedChildren(m, d);
    ChildNames(m, d, n);
    var x := m.nodes[d].children[n];
    assert Kept(m, d, x) && Below(m, d, x);
  }

  // The two entries of a name are listed when the object and the directory are there.
  lemma SpotListed(keys: set<Key>, prefix: Key, n: string, at: Spot)
    requires ValidName(n) && SpotIn(Sorted(EntrySet(keys, prefix, true)), prefix, n, at)
    ensures at.file.Some? <==> prefix + n in keys
    ensures at.dir.Some? <==> AnyUnder(keys, prefix + n + "/")
  {
    FileEntry(keys, prefix, n);
    DirEntry(keys, prefix, n);
  }

  // The size that a refresh gives a file: the object's, unless the file and a
  // directory of the same name fall on different pages of max entries; then 0.
  lemma RefreshedSize(c: Cache, s: Cache, d: InodeID, b: Bucket, max: nat, ttl: Time, m: Cache, n: string, at: Spot)
    requires Tree(c) && d in c.nodes && RefreshedWith(c, s, d, b, max, ttl, m) && ValidName(n)
    requires DirPrefix(c, d) + n in b.objects
    requires SpotIn(Sorted(EntrySet(Keys(b), DirPrefix(c, d), true)), DirPrefix(c, d), n, at)
    ensures at.file.Some? && (at.dir.Some? <==> AnyUnder(Keys(b), DirPrefix(c, d) + n + "/"))
    ensures d in s.nodes && n in s.nodes[d].children && s.nodes[d].children[n] in s.nodes
    ensures var size, given := |b.objects[DirPrefix(c, d) + n]|, s.nodes[s.nodes[d].children[n]].size;
            && given == SizeAt(at, max, size)
            && (given == size <==> at.dir.None? || at.file.value / max == at.dir.value / max || size == 0)
  {
    var prefix := DirPrefix(c, d);
    var entries := EntrySet(Keys(b), prefix, true);
    SpotListed(Keys(b), prefix, n, at);
    SeenStart(entries);
    PagedSize(b, Keys(b), prefix, n, imap[], entries, "", max, at);
    ListedSize(c, s, d, b, max, ttl, m, n);
  }

  // A refresh leaves the path of the directory itself alone.
  lemma {:induction false} SameAbove(c: Cache, s: Cache, d: InodeID, r: InodeID)
    requires Tree(c) && r in c.nodes && r <= d
    requires forall x :: x in c.nodes && x <= d ==>
               x in s.nodes && s.nodes[x].name == c.nodes[x].name && s.nodes[x].parent == c.nodes[x].parent
    ensures Names(s, r) == Names(c, r)
    decreases r
  {
    assert Placed(c, r);
    if r != ROOT { SameAbove(c, s, d, c.nodes[r].parent); }
  }

  lemma RefreshedPath(c: Cache, s: Cache, d: InodeID, b: Bucket, max: nat, ttl: Time, m: Cache)
    requires Tree(c) && d in c.nodes && RefreshedWith(c, s, d, b, max, ttl, m)
    ensures Names(s, d) == Names(c, d)
  {
    forall x | x in c.nodes && x <= d
      ensures x in s.nodes && s.nodes[x].name == c.nodes[x].name && s.nodes[x].parent == c.nodes[x].parent
    {
      if Below(m, d, x) { BelowOrder(m, d, x); }
    }
    SameAbove(c, s, d, d);
  }

  // After a refresh the directory agrees with the bucket exactly when, before
  // it, no cached child carried a mark without being listed and no cached child
  // was of another kind than listed.
  lemma RefreshCoherent(c: Cache, s: Cache, d: InodeID, b: Bucket, max: nat, ttl: Time, m: Cache)
    requires Tree(c) && d in c.nodes && RefreshedWith(c, s, d, b, max, ttl, m)
    ensures Coherent(State(s, b), d) <==>
            forall n :: n in c.nodes[d].children ==>
              match KindAt(Keys(b), DirPrefix(c, d), n)
              case None => !Marked(c, d, n)
              case Some(kind) => ChildKind(c, d, n) == Some(kind)
  {
    RefreshTree(c, s, d, b, max, ttl, m);
    RefreshedPath(c, s, d, b, max, ttl, m);
    forall n | ValidName(n)
      ensures d in s.nodes
      ensures Agrees(State(s, b), d, n) <==>
              (n in c.nodes[d].children ==>
                 match KindAt(Keys(b), DirPrefix(c, d), n)
                 case None => !Marked(c, d, n)
                 case Some(kind) => ChildKind(c, d, n) == Some(kind))
    {
      RefreshedNames(c, s, d, b, max, ttl, m, n);
      if n in c.nodes[d].children { ChildNames(c, d, n); }
      if n in s.nodes[d].children { ChildNames(s, d, n); }
    }
    forall n | n in c.nodes[d].children ensures ValidName(n) { ChildNames(c, d, n); }
    assert d in s.nodes by { RefreshedNames(c, s, d, b, max, ttl, m, "a"); }
  }

  // So a directory that agrees with the bucket does so after a refresh, whatever
  // marks its children carry.
  lemma RefreshKeepsCoherent(c: Cache, s: Cache, d: InodeID, b: Bucket, max: nat, ttl: Time, m: Cache)
    requires Tree(c) && RefreshedWith(c, s, d, b, max, ttl, m) && Coherent(State(c, b), d)
    ensures Coherent(State(s, b), d)
  {
    RefreshCoherent(c, s, d, b, max, ttl, m);
    forall n | n in c.nodes[d].children
      ensures match KindAt(Keys(b), DirPrefix(c, d), n)
              case None => !Marked(c, d, n)
              case Some(kind) => ChildKind(c, d, n) == Some(kind)
    {
      ChildNames(c, d, n);
      assert Agrees(State(c, b), d, n);
    }
  }

  // A refresh of e leaves the directories alone that are not below e.
  lemma RefreshElsewhere(c: Cache, s: Cache, e: InodeID, b: Bucket, max: nat, ttl: Time, m: Cache, d: InodeID)
    requires Tree(c) && e in c.nodes && RefreshedWith(c, s, e, b, max, ttl, m)
    requires !Below(c, e, d) && Coherent(State(c, b), d)
    ensures Coherent(State(s, b), d)
  {
    RefreshTree(c, s, e, b, max, ttl, m);
    BelowStable(c, m, e, d);
    forall r | r in c.nodes && r in s.nodes ensures r != ROOT ==> c.nodes[r].parent in s.nodes { assert Placed(s, r); }
    PathForLife(c, s, d);
    forall n | ValidName(n) ensures Agrees(State(s, b), d, n) {
      assert Agrees(State(c, b), d, n);
      if n in c.nodes[d].children { ElsewhereKind(c, m, s, e, b, max, ttl, d, n); }
    }
  }

  lemma ElsewhereKind(c: Cache, m: Cache, s: Cache, e: InodeID, b: Bucket, max: nat, ttl: Time, d: InodeID, n: string)
    requires Tree(c) && e in c.nodes && RefreshedWith(c, s, e, b, max, ttl, m)
    requires d in c.nodes && !Below(c, e, d) && !Below(m, e, d) && n in c.nodes[d].children
    ensures ChildKind(s, d, n) == ChildKind(c, d, n)
  {
    ChildNames(c, d, n);
    var x := c.nodes[d].children[n];
    assert Placed(c, x);
    BelowStable(c, m, e, x);
    if x != e { assert !Below(c, e, x); }
    assert Kept(m, e, e);
  }

  // Lookup and listing agree: for a name that is not cached, find_dentry and a
  // refresh of the directory come to the same answer, whatever the pages.
  lemma LookupAgreesWithListing(c: Cache, s: Cache, d: InodeID, b: Bucket, max: nat, ttl: Time, m: Cache, ttl': Time,
                                n: string)
    requires Tree(c) && d in c.nodes && IsDirMode(c.nodes[d].mode) && RefreshedWith(c, s, d, b, max, ttl, m)
    requires ValidName(n)
    requires n !in c.nodes[d].children
    ensures ChildKind(Fetched(c, b, d, n, ttl'), d, n) == ChildKind(s, d, n)
  {
    FetchedKind(c, b, d, n, ttl');
    RefreshedNames(c, s, d, b, max, ttl, m, n);
  }

  // File children agree after every refresh of any run: marks on files are
  // always clear between refreshes.
  lemma FilesAgree(c: Cache, s: Cache, d: InodeID, b: Bucket, max: nat, ttl: Time, m: Cache)
    requires Tree(c) && d in c.nodes && IsDirMode(c.nodes[d].mode) && RefreshedWith(c, s, d, b, max, ttl, m)
    requires FilesClear(c)
    ensures FilesClear(s)
    ensures forall n :: ValidName(n) && ChildKind(c, d, n) != Some(Dir) ==>
              d in s.nodes && (n in s.nodes[d].children <==> KindAt(Keys(b), DirPrefix(c, d), n).Some?)
  {
    RefreshClearsFiles(c, m, d, PagedInfo(b, DirPrefix(c, d), max), ttl);
    forall n | ValidName(n) && ChildKind(c, d, n) != Some(Dir)
      ensures d in s.nodes && (n in s.nodes[d].children <==> KindAt(Keys(b), DirPrefix(c, d), n).Some?)
    {
      RefreshedNames(c, s, d, b, max, ttl, m, n);
    }
  }

  // ---- What a refresh does one level further down --------------------------------------

  // After a refresh of d a dentry below d is there exactly when each step of its
  // path was listed or marked. It agrees with the bucket exactly when it is
  // there and its marked children are all that the bucket lists.
  lemma SubdirectoryCoherent(c: Cache, s: Cache, d: InodeID, b: Bucket, max: nat, ttl: Time, m: Cache, x: InodeID)
    requires Tree(c) && d in c.nodes && RefreshedWith(c, s, d, b, max, ttl, m)
    requires x in c.nodes && Below(c, d, x) && x != d
    ensures x in s.nodes <==> Survives(c, d, PagedInfo(b, DirPrefix(c, d), max), PathBelow(c, d, x))
    ensures Coherent(State(s, b), x) <==> x in s.nodes && OnlyMarkedListed(c, b, x)
    ensures x in s.nodes ==>
              && s.nodes[x].children == MarkedChildren(c, x) && s.nodes[x].ttl == ttl
              && (s.nodes[x].complete <==> c.nodes[x].complete || c.nodes[x].children != map[])
  {
    var info := PagedInfo(b, DirPrefix(c, d), max);
    StaysAlong(c, m, d, info, ttl, x);
    if x in s.nodes {
      SubdirectoriesHollowed(c, m, d, info, ttl, x);
      RefreshStays(c, m, d, info, ttl);
      PathForLife(c, s, x);
      forall n | ValidName(n)
        ensures ChildKind(s, x, n) == if Marked(c, x, n) then ChildKind(c, x, n) else None
      {
        MarkedKind(c, s, d, ttl, m, info, x, n);
      }
      OnlyMarked(c, s, x, b);
    }
  }

  // The bucket lists the marked children of x and nothing else.
  ghost predicate OnlyMarkedListed(c: Cache, b: Bucket, x: InodeID) {
    forall n :: ValidName(n) ==>
      KindAt(Keys(b), DirPrefix(c, x), n) == if Marked(c, x, n) then ChildKind(c, x, n) else None
  }

  lemma OnlyMarked(c: Cache, s: Cache, e: InodeID, b: Bucket)
    requires e in s.nodes && Names(s, e) == Names(c, e)
    requires forall n :: ValidName(n) ==> ChildKind(s, e, n) == if Marked(c, e, n) then ChildKind(c, e, n) else None
    ensures Coherent(State(s, b), e) <==> OnlyMarkedListed(c, b, e)
  {
    forall n | ValidName(n)
      ensures Agrees(State(s, b), e, n) <==>
              KindAt(Keys(b), DirPrefix(c, e), n) == if Marked(c, e, n) then ChildKind(c, e, n) else None
    {}
  }

  lemma MarkedKind(c: Cache, s: Cache, d: InodeID, ttl: Time, m: Cache, info: Info, x: InodeID, n: string)
    requires Tree(c) && Tree(s) && MergedBy(c, m, d, info) && s == Swept(m, d, ttl)
    requires x in c.nodes && x in s.nodes && s.nodes[x].children == MarkedChildren(c, x)
    ensures ChildKind(s, x, n) == if Marked(c, x, n) then ChildKind(c, x, n) else None
  {
    if n in s.nodes[x].children { ChildNames(s, x, n); }
  }

  // A directory that the refresh keeps, without a marked child, loses all of them.
  lemma UnmarkedHidden(c: Cache, s: Cache, d: InodeID, b: Bucket, max: nat, ttl: Time, m: Cache, x: InodeID, n: string)
    requires Tree(c) && d in c.nodes && RefreshedWith(c, s, d, b, max, ttl, m)
    requires x in c.nodes && Below(c, d, x) && x != d && x in s.nodes
    requires MarkedChildren(c, x) == map[] && ValidName(n) && KindAt(Keys(b), DirPrefix(c, x), n).Some?
    ensures s.nodes[x].children == map[] && s.nodes[x].ttl == ttl && !Coherent(State(s, b), x)
    ensures c.nodes[x].children != map[] ==> s.nodes[x].complete
  {
    SubdirectoryCoherent(c, s, d, b, max, ttl, m, x);
    assert !Marked(c, x, n) by { assert n !in MarkedChildren(c, x); }
  }
}

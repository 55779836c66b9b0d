// Listings of a bucket: the entries of one directory level, their order, and
// the pages in which a store hands them out.
module Listing {
  import opened Basics

  // ---- Key order ------------------------------------------------------

  predicate Less(a: string, b: string) {
    b != [] && (a == [] || a[0] < b[0] || (a[0] == b[0] && Less(a[1..], b[1..])))
  }

  lemma LessIrreflexive(a: string)
    ensures !Less(a, a)
  {}

  lemma {:induction false} LessTransitive(a: string, b: string, c: string)
    requires Less(a, b) && Less(b, c)
    ensures Less(a, c)
  {
    if a != [] && a[0] == b[0] && b[0] == c[0] {
      LessTransitive(a[1..], b[1..], c[1..]);
    }
  }

  lemma {:induction false} LessTotal(a: string, b: string)
    ensures a == b || Less(a, b) || Less(b, a)
  {
    if a != [] && b != [] && a[0] == b[0] {
      LessTotal(a[1..], b[1..]);
      assert a == [a[0]] + a[1..] && b == [b[0]] + b[1..];
    }
  }

  lemma {:induction false} LessExtension(a: string, b: string)
    requires b != []
    ensures Less(a, a + b)
  {
    if a != [] {
      LessExtension(a[1..], b);
      assert (a + b)[1..] == a[1..] + b;
    }
  }

  predicate Least(m: string, s: set<string>) {
    m in s && forall x :: x in s && x != m ==> Less(m, x)
  }

  lemma {:induction false} LeastExists(s: set<string>)
    requires s != {}
    ensures exists m :: Least(m, s)
  {
    var x :| x in s;
    var rest := s - {x};
    if rest == {} {
      assert s == {x};
      assert Least(x, s);
    } else {
      LeastExists(rest);
      var m :| Least(m, rest);
      LessTotal(x, m);
      if Less(x, m) {
        forall y | y in s && y != x ensures Less(x, y) {
          if y != m { LessTransitive(x, m, y); }
        }
        assert Least(x, s);
      } else {
        assert Least(m, s);
      }
    }
  }

  lemma LeastUnique(s: set<string>, m: string, n: string)
    requires Least(m, s) && Least(n, s)
    ensures m == n
  {
    if m != n {
      LessTransitive(m, n, m);
      LessIrreflexive(m);
    }
  }

  function Head(s: set<string>): (m: string)
    requires s != {}
    ensures Least(m, s)
  {
    LeastExists(s);
    assert forall m, n :: Least(m, s) && Least(n, s) ==> m == n by {
      forall m, n | Least(m, s) && Least(n, s) ensures m == n { LeastUnique(s, m, n); }
    }
    var m :| m in s && Least(m, s);
    m
  }

  ghost predicate Ascending(r: seq<string>) {
    forall i, j :: 0 <= i < j < |r| ==> Less(r[i], r[j])
  }

  // The elements of a set of keys in key order.
  function Sorted(s: set<string>): (r: seq<string>)
    ensures Ascending(r)
    ensures forall x :: x in r <==> x in s
    ensures |r| == |s|
  {
    if s == {} then [] else
      var m := Head(s);
      var r := [m] + Sorted(s - {m});
      assert forall x :: x in s ==> x == m || x in s - {m};
      r
  }

  ghost function Elements(r: seq<string>): set<string> {
    set x | x in r
  }

  // There is one way to list a set in ascending order.
  lemma {:induction false} SortedUnique(r: seq<string>, s: set<string>)
    requires Ascending(r)
    requires forall x :: x in r <==> x in s
    ensures r == Sorted(s)
  {
    if r == [] {
      assert s == {};
    } else {
      var m, t := r[0], r[1..];
      assert m in r;
      assert forall x :: x in r <==> x == m || x in t;
      forall x | x in t ensures Less(m, x) {
        var i :| 0 <= i < |t| && t[i] == x;
        assert r[i + 1] == x;
      }
      LessIrreflexive(m);
      LeastUnique(s, m, Head(s));
      SortedUnique(t, s - {m});
    }
  }

  // ---- Entries of one level ---------------------------------------------

  function FirstSlash(s: string): (i: nat)
    requires '/' in s
    ensures i < |s| && s[i] == '/' && '/' !in s[..i]
  {
    if s[0] == '/' then 0 else
      var i := 1 + FirstSlash(s[1..]);
      assert s[..i] == [s[0]] + s[1..][..i - 1];
      i
  }

  // What a listing of `prefix` shows for key k: the key, or with delimiter "/"
  // the common prefix that k is rolled up into.
  function EntryOf(prefix: Key, k: Key, delimited: bool): Key
    requires prefix <= k
  {
    var rest := k[|prefix|..];
    if delimited && '/' in rest then prefix + rest[..FirstSlash(rest) + 1] else k
  }

  // The key equal to the prefix itself (a directory's own placeholder) is not
  // an entry of the directory's listing.
  function EntrySet(keys: set<Key>, prefix: Key, delimited: bool): set<Key> {
    set k | k in keys && prefix < k :: EntryOf(prefix, k, delimited)
  }

  ghost predicate AnyUnder(keys: set<Key>, prefix: Key) {
    exists k :: k in keys && prefix <= k
  }

  // What the bucket says about name n in the directory with this prefix. A file
  // wins over a directory of the same name.
  ghost function KindAt(keys: set<Key>, prefix: Key, n: string): Option<Kind> {
    if prefix + n in keys then Some(File)
    else if AnyUnder(keys, prefix + n + "/") then Some(Dir)
    else None
  }

  predicate IsCommonPrefix(e: Key) {
    e != [] && e[|e| - 1] == '/'
  }

  lemma EntryShape(keys: set<Key>, prefix: Key, e: Key) returns (n: string)
    requires e in EntrySet(keys, prefix, true)
    ensures '/' !in n
    ensures IsCommonPrefix(e) ==> e == prefix + n + "/"
    ensures !IsCommonPrefix(e) ==> e == prefix + n && n != ""
  {
    var k :| k in keys && prefix < k && e == EntryOf(prefix, k, true);
    var rest := k[|prefix|..];
    assert k == prefix + rest;
    if '/' in rest {
      n := RolledUp(prefix, rest);
    } else {
      n := rest;
      assert e[|e| - 1] == rest[|rest| - 1];
    }
  }

  lemma RolledUp(prefix: Key, rest: Key) returns (n: string)
    requires '/' in rest
    ensures '/' !in n && prefix + rest[..FirstSlash(rest) + 1] == prefix + n + "/" && IsCommonPrefix(prefix + n + "/")
  {
    var i := FirstSlash(rest);
    n := rest[..i];
    assert rest[..i + 1] == n + "/";
    assert prefix + (n + "/") == prefix + n + "/";
  }

  lemma FileEntry(keys: set<Key>, prefix: Key, n: string)
    requires ValidName(n)
    ensures prefix + n in EntrySet(keys, prefix, true) <==> prefix + n in keys
  {
    var k := prefix + n;
    assert k[|prefix|..] == n;
    if k in keys {
      assert EntryOf(prefix, k, true) == k;
    }
    if k in EntrySet(keys, prefix, true) {
      var h :| h in keys && prefix < h && k == EntryOf(prefix, h, true);
      var rest := h[|prefix|..];
      assert k[|k| - 1] == n[|n| - 1];
    }
  }

  lemma DirEntry(keys: set<Key>, prefix: Key, n: string)
    requires ValidName(n)
    ensures prefix + n + "/" in EntrySet(keys, prefix, true) <==> AnyUnder(keys, prefix + n + "/")
  {
    var e := prefix + n + "/";
    if AnyUnder(keys, e) {
      var k :| k in keys && e <= k;
      var rest := k[|prefix|..];
      assert rest[..|n|] == n && rest[|n|] == '/';
      FirstSlashAt(rest, |n|);
      assert rest[..|n| + 1] == n + "/";
      assert EntryOf(prefix, k, true) == prefix + (n + "/") == e;
    }
    if e in EntrySet(keys, prefix, true) {
      var k :| k in keys && prefix < k && e == EntryOf(prefix, k, true);
      var rest := k[|prefix|..];
      assert k == prefix + rest;
      assert k[|k| - 1] == rest[|rest| - 1];
      assert e <= k;
    }
  }

  lemma {:induction false} FirstSlashAt(s: string, i: nat)
    requires i < |s| && s[i] == '/' && '/' !in s[..i]
    ensures FirstSlash(s) == i
  {
    if i > 0 {
      assert s[..i][0] == s[0];
      forall c | c in s[1..][..i - 1] ensures c in s[..i] {
        var j :| 0 <= j < i - 1 && s[1..][..i - 1][j] == c;
        assert s[..i][j + 1] == c;
      }
      FirstSlashAt(s[1..], i - 1);
    }
  }

  // ---- Pages ------------------------------------------------------------

  datatype Page = Page(entries: seq<Key>, isTrunc: bool, nextMarker: Key)

  function Remaining(entries: set<Key>, marker: Key): set<Key> {
    set e | e in entries && Less(marker, e)
  }

  // The ListObjects marker contract: the first `max` entries after the marker,
  // in key order; a truncated page names its last entry as the next marker.
  function PageAfter(entries: set<Key>, marker: Key, max: nat): (p: Page)
    requires max >= 1
    ensures p.isTrunc ==> |p.entries| == max
    ensures p.isTrunc <==> |p.entries| < |Remaining(entries, marker)|
  {
    var r := Sorted(Remaining(entries, marker));
    if |r| <= max then Page(r, false, "")
    else Page(r[..max], true, r[max - 1])
  }

  // In an ascending list, exactly the later elements are above the i-th.
  lemma AboveIth(r: seq<string>, i: nat, j: nat)
    requires Ascending(r) && i < |r| && j < |r|
    ensures Less(r[i], r[j]) <==> i < j
  {
    if j <= i && Less(r[i], r[j]) {
      if j < i { LessTransitive(r[i], r[j], r[i]); }
      LessIrreflexive(r[i]);
    }
  }

  lemma RemainingAfter(r: seq<string>, i: nat, e: string)
    requires Ascending(r) && i < |r|
    ensures e in r && Less(r[i], e) <==> e in r[i + 1..]
  {
    if e in r {
      var j :| 0 <= j < |r| && r[j] == e;
      AboveIth(r, i, j);
      if i < j { assert r[i + 1..][j - (i + 1)] == e; }
    }
    if e in r[i + 1..] {
      var j :| 0 <= j < |r[i + 1..]| && r[i + 1..][j] == e;
      assert r[i + 1 + j] == e;
    }
  }

  lemma RemainingIsSuffix(entries: set<Key>, marker: Key, r: seq<Key>, i: nat)
    requires r == Sorted(Remaining(entries, marker)) && i < |r|
    ensures Sorted(Remaining(entries, r[i])) == r[i + 1..]
  {
    forall e ensures e in r[i + 1..] <==> e in Remaining(entries, r[i]) {
      RemainingAfter(r, i, e);
      assert r[i] in r;
      if Less(r[i], e) { LessTransitive(marker, r[i], e); }
    }
    SortedUnique(r[i + 1..], Remaining(entries, r[i]));
  }

  // Following the markers neither skips nor repeats an entry.
  lemma PageStep(entries: set<Key>, marker: Key, max: nat, p: Page, r: seq<Key>)
    requires max >= 1 && p == PageAfter(entries, marker, max)
    requires r == Sorted(Remaining(entries, marker))
    ensures p.isTrunc ==> max < |r| && p.entries == r[..max]
    ensures p.isTrunc ==> Sorted(Remaining(entries, p.nextMarker)) == r[max..]
    ensures !p.isTrunc ==> p.entries == r
  {
    if p.isTrunc {
      RemainingIsSuffix(entries, marker, r, max - 1);
    }
  }

  // What has been handed out before and after a page.
  lemma PageCovers(entries: set<Key>, marker: Key, max: nat, p: Page)
    requires max >= 1 && p == PageAfter(entries, marker, max)
    ensures Elements(p.entries) <= Remaining(entries, marker)
    ensures forall e :: e in Remaining(entries, marker) ==>
              (e in Elements(p.entries) <==> !(p.isTrunc && Less(p.nextMarker, e)))
  {
    var r := Sorted(Remaining(entries, marker));
    PageStep(entries, marker, max, p, r);
    if p.isTrunc {
      forall e | e in r ensures e in r[..max] <==> !Less(p.nextMarker, e) {
        RemainingAfter(r, max - 1, e);
        SplitMember(r, max, e);
      }
    }
  }

  lemma SplitMember(r: seq<string>, k: nat, e: string)
    requires Ascending(r) && k <= |r| && e in r
    ensures e in r[..k] <==> e !in r[k..]
  {
    var j :| 0 <= j < |r| && r[j] == e;
    if j < k { assert r[..k][j] == e; } else { assert r[k..][j - k] == e; }
    if e in r[..k] && e in r[k..] {
      var a :| 0 <= a < k && r[..k][a] == e;
      var b :| 0 <= b < |r[k..]| && r[k..][b] == e;
      AboveIth(r, a, k + b);
      LessIrreflexive(e);
    }
  }

  // Everything handed out up to a marker.
  function Seen(entries: set<Key>, marker: Key): set<Key> {
    set e | e in entries && !Less(marker, e)
  }

  lemma SeenStart(entries: set<Key>)
    requires "" !in entries
    ensures Seen(entries, "") == {} && Remaining(entries, "") == entries
  {
    forall e | e in entries ensures Less("", e) {}
  }

  // A page comes after everything seen before it, and adds to it.
  lemma SeenStep(entries: set<Key>, marker: Key, max: nat, p: Page)
    requires max >= 1 && p == PageAfter(entries, marker, max)
    ensures Seen(entries, marker) + Elements(p.entries) == if p.isTrunc then Seen(entries, p.nextMarker) else entries
    ensures forall e, f :: e in Seen(entries, marker) && f in Elements(p.entries) ==> Less(e, f)
    ensures p.isTrunc ==> |Remaining(entries, p.nextMarker)| < |Remaining(entries, marker)|
  {
    PageCovers(entries, marker, max, p);
    var r := Sorted(Remaining(entries, marker));
    PageStep(entries, marker, max, p, r);
    if p.isTrunc {
      assert |Sorted(Remaining(entries, p.nextMarker))| == |r| - max;
      assert p.nextMarker in r by { assert r[max - 1] in r; }
      forall e | e in entries ensures !Less(marker, e) ==> !Less(p.nextMarker, e) {
        if Less(p.nextMarker, e) { LessTransitive(marker, p.nextMarker, e); }
      }
    }
    SeenFirst(entries, marker, p);
  }

  lemma SeenFirst(entries: set<Key>, marker: Key, p: Page)
    requires Elements(p.entries) <= Remaining(entries, marker)
    ensures forall e, f :: e in Seen(entries, marker) && f in Elements(p.entries) ==> Less(e, f)
  {
    forall e, f | e in Seen(entries, marker) && f in Elements(p.entries) ensures Less(e, f) {
      LessTotal(e, marker);
      if e != marker { LessTransitive(e, marker, f); }
    }
  }

  // The pages a client collects by following markers until a page is not truncated.
  ghost function Pages(entries: set<Key>, marker: Key, max: nat): seq<Page>
    requires max >= 1
    decreases |Remaining(entries, marker)|
  {
    var p := PageAfter(entries, marker, max);
    if p.isTrunc then
      PageStep(entries, marker, max, p, Sorted(Remaining(entries, marker)));
      [p] + Pages(entries, p.nextMarker, max)
    else [p]
  }

  ghost function Concat(pages: seq<Page>): seq<Key> {
    if pages == [] then [] else pages[0].entries + Concat(pages[1..])
  }

  lemma ConcatCons(p: Page, rest: seq<Page>, listing: seq<Key>, k: nat)
    requires k <= |listing| && p.entries == listing[..k] && Concat(rest) == listing[k..]
    ensures Concat([p] + rest) == listing
  {
    assert ([p] + rest)[1..] == rest;
  }

  // Pagination is invisible: whatever the page size, the pages spell out the
  // unpaged listing, every entry exactly once and in order.
  lemma {:induction false} PagesSpellListing(entries: set<Key>, marker: Key, max: nat, listing: seq<Key>)
    requires max >= 1
    requires listing == Sorted(Remaining(entries, marker))
    ensures Concat(Pages(entries, marker, max)) == listing
    decreases |listing|
  {
    var p := PageAfter(entries, marker, max);
    PageStep(entries, marker, max, p, listing);
    if p.isTrunc {
      PagesSpellListing(entries, p.nextMarker, max, listing[max..]);
      ConcatCons(p, Pages(entries, p.nextMarker, max), listing, max);
    } else {
      ConcatCons(p, [], listing, |listing|);
    }
  }
}

/**
 * `extract_chapter_links`: keep the index page's links whose href names a
 * chapter file, then order them by the chapter number in the file name.
 * The anchors arrive as (text, href) pairs already read off the page, and
 * `urljoin` is a function the caller supplies.
 */
module Links {
  import opened Wrappers
  import opened PyStr

  /** An `<a href>` of the chapter list: its stripped text and its raw `href`. */
  datatype Anchor = Anchor(text: string, href: string)

  /** `(text, urljoin(BASE_URL, href), href)` */
  datatype Link = Link(text: string, abs: string, rel: string)

  /** The href test: lower-cased, it starts with `chapter_` and ends with `.html`. */
  predicate IsChapterHref(href: string) {
    StartsWith(Lower(href), "chapter_") && EndsWith(Lower(href), ".html")
  }

  /** The longest prefix of ASCII digits. */
  function DigitRun(s: string): (d: string)
    ensures d <= s
    ensures forall i :: 0 <= i < |d| ==> IsDigit(d[i])
    ensures |d| < |s| ==> !IsDigit(s[|d|])
  {
    if s != [] && IsDigit(s[0]) then [s[0]] + DigitRun(s[1..]) else []
  }

  /** `chapter_(\d+)\.html` matched at position `p`, as the captured number. */
  function MatchAt(s: string, p: nat): Option<nat>
    requires p <= |s|
  {
    var t := s[p..];
    if !StartsWith(t, "chapter_") then None
    else
      var d := DigitRun(t[8..]);
      if d != [] && StartsWith(t[8 + |d|..], ".html") then Some(DigitsValue(d)) else None
  }

  /** The leftmost match at position `p` or later. */
  function SearchFrom(s: string, p: nat): Option<nat>
    requires p <= |s|
    decreases |s| - p
  {
    if MatchAt(s, p).Some? then MatchAt(s, p)
    else if p == |s| then None
    else SearchFrom(s, p + 1)
  }

  /** `re.search(r"chapter_(\d+)\.html", rel)`, as the integer of its group. */
  function ChapterNumber(rel: string): Option<nat> {
    SearchFrom(rel, 0)
  }

  /** `key_fn`: the chapter number of the relative href, or 999 without one. */
  function SortKey(l: Link): nat {
    ChapterNumber(l.rel).GetOr(999)
  }

  /** Ordered by `key`, as `list.sort(key=...)` leaves a list. */
  predicate SortedBy(s: seq<Link>, key: Link -> nat) {
    forall i, j :: 0 <= i < j < |s| ==> key(s[i]) <= key(s[j])
  }

  /** The links of `s` whose key is `k`, in their order in `s`. */
  function WithKey(s: seq<Link>, key: Link -> nat, k: nat): seq<Link> {
    if s == [] then [] else (if key(s[0]) == k then [s[0]] else []) + WithKey(s[1..], key, k)
  }

  /** Places `x` after every link whose key is at most its own. */
  function Insert(x: Link, s: seq<Link>, key: Link -> nat): seq<Link> {
    if s == [] then [x]
    else if key(x) < key(s[0]) then [x] + s
    else [s[0]] + Insert(x, s[1..], key)
  }

  /** `links.sort(key=...)`: a stable sort by key. */
  function SortBy(s: seq<Link>, key: Link -> nat): seq<Link> {
    if s == [] then [] else Insert(s[|s| - 1], SortBy(s[..|s| - 1], key), key)
  }

  /** The link built from an anchor that passes the test. */
  function ToLink(a: Anchor, resolve: string -> string): Link {
    var href := Strip(a.href);
    Link(a.text, resolve(href), href)
  }

  predicate Kept(a: Anchor) {
    IsChapterHref(Strip(a.href))
  }

  /** The links appended in document order, before the sort. */
  function KeptLinks(anchors: seq<Anchor>, resolve: string -> string): seq<Link> {
    if anchors == [] then []
    else
      var a := anchors[|anchors| - 1];
      KeptLinks(anchors[..|anchors| - 1], resolve) + (if Kept(a) then [ToLink(a, resolve)] else [])
  }

  lemma KeptLinksSnoc(anchors: seq<Anchor>, i: nat, resolve: string -> string)
    requires i < |anchors|
    ensures KeptLinks(anchors[..i + 1], resolve) ==
      KeptLinks(anchors[..i], resolve) + (if Kept(anchors[i]) then [ToLink(anchors[i], resolve)] else [])
  {
    assert anchors[..i + 1][..i] == anchors[..i];
  }

  method ExtractChapterLinks(anchors: seq<Anchor>, resolve: string -> string) returns (links: seq<Link>)
    ensures links == SortBy(KeptLinks(anchors, resolve), SortKey)
  {
    links := [];
    var i := 0;
    while i < |anchors|
      invariant 0 <= i <= |anchors|
      invariant links == KeptLinks(anchors[..i], resolve)
    {
      KeptLinksSnoc(anchors, i, resolve);
      var href := Strip(anchors[i].href);
      if IsChapterHref(href) {
        links := links + [Link(anchors[i].text, resolve(href), href)];
      }
      i := i + 1;
    }
    assert anchors[..i] == anchors;
    links := SortBy(links, SortKey);
  }

  // The sort

  /** `Insert` adds exactly `x`. */
  lemma {:induction false} InsertPerm(x: Link, s: seq<Link>, key: Link -> nat)
    ensures multiset(Insert(x, s, key)) == multiset(s) + multiset{x}
  {
    if s != [] && key(x) >= key(s[0]) {
      InsertPerm(x, s[1..], key);
      assert s == [s[0]] + s[1..];
    }
  }

  /** `Insert` keeps a lower bound every key meets. */
  lemma {:induction false} InsertAbove(x: Link, s: seq<Link>, key: Link -> nat, b: nat)
    requires key(x) >= b
    requires forall i :: 0 <= i < |s| ==> key(s[i]) >= b
    ensures forall i :: 0 <= i < |Insert(x, s, key)| ==> key(Insert(x, s, key)[i]) >= b
  {
    if s != [] && key(x) >= key(s[0]) {
      InsertAbove(x, s[1..], key, b);
    }
  }

  /** Inserting into a sorted list keeps it sorted. */
  lemma {:induction false} InsertSorted(x: Link, s: seq<Link>, key: Link -> nat)
    requires SortedBy(s, key)
    ensures SortedBy(Insert(x, s, key), key)
  {
    if s != [] && key(x) >= key(s[0]) {
      InsertSorted(x, s[1..], key);
      InsertAbove(x, s[1..], key, key(s[0]));
    }
  }

  /** The sort yields a sorted list ... */
  lemma {:induction false} SortBySorted(s: seq<Link>, key: Link -> nat)
    ensures SortedBy(SortBy(s, key), key)
  {
    if s != [] {
      SortBySorted(s[..|s| - 1], key);
      InsertSorted(s[|s| - 1], SortBy(s[..|s| - 1], key), key);
    }
  }

  /** ... holding the links of its input, each as often as there. */
  lemma {:induction false} SortByPerm(s: seq<Link>, key: Link -> nat)
    ensures multiset(SortBy(s, key)) == multiset(s)
  {
    if s != [] {
      var init := s[..|s| - 1];
      SortByPerm(init, key);
      InsertPerm(s[|s| - 1], SortBy(init, key), key);
      assert s == init + [s[|s| - 1]];
    }
  }

  lemma {:induction false} WithKeyConcat(a: seq<Link>, b: seq<Link>, key: Link -> nat, k: nat)
    ensures WithKey(a + b, key, k) == WithKey(a, key, k) + WithKey(b, key, k)
  {
    if a == [] {
      assert a + b == b;
    } else {
      assert (a + b)[0] == a[0];
      assert (a + b)[1..] == a[1..] + b;
      WithKeyConcat(a[1..], b, key, k);
    }
  }

  lemma {:induction false} WithKeyOfGreater(s: seq<Link>, key: Link -> nat, k: nat)
    requires forall i :: 0 <= i < |s| ==> key(s[i]) > k
    ensures WithKey(s, key, k) == []
  {
    if s != [] {
      WithKeyOfGreater(s[1..], key, k);
    }
  }

  /**
   * In a sorted list, `x` lands after every link of its own key: each key's
   * links come out of `Insert` in the order they went in.
   */
  lemma {:induction false} InsertWithKey(x: Link, s: seq<Link>, key: Link -> nat, k: nat)
    requires SortedBy(s, key)
    ensures WithKey(Insert(x, s, key), key, k) == WithKey(s, key, k) + (if key(x) == k then [x] else [])
  {
    var here := if key(x) == k then [x] else [];
    if s == [] {
      assert [x][1..] == [];
    } else if key(x) < key(s[0]) {
      assert ([x] + s)[1..] == s;
      if key(x) == k {
        WithKeyOfGreater(s, key, k);
      }
    } else {
      var t := s[1..];
      var h := if key(s[0]) == k then [s[0]] else [];
      assert SortedBy(t, key) by {
        forall i, j | 0 <= i < j < |t| ensures key(t[i]) <= key(t[j]) {
          assert t[i] == s[i + 1] && t[j] == s[j + 1];
        }
      }
      InsertWithKey(x, t, key, k);
      assert ([s[0]] + Insert(x, t, key))[1..] == Insert(x, t, key);
      calc {
        WithKey(Insert(x, s, key), key, k);
        WithKey([s[0]] + Insert(x, t, key), key, k);
        h + WithKey(Insert(x, t, key), key, k);
        h + (WithKey(t, key, k) + here);
        (h + WithKey(t, key, k)) + here;
        WithKey(s, key, k) + here;
      }
    }
  }

  /** The sort is stable: the links of one key keep their relative order. */
  lemma {:induction false} SortByStable(s: seq<Link>, key: Link -> nat, k: nat)
    ensures WithKey(SortBy(s, key), key, k) == WithKey(s, key, k)
  {
    if s != [] {
      var init := s[..|s| - 1];
      var x := s[|s| - 1];
      var tail := if key(x) == k then [x] else [];
      SortByStable(init, key, k);
      SortBySorted(init, key);
      InsertWithKey(x, SortBy(init, key), key, k);
      assert WithKey(SortBy(s, key), key, k) == WithKey(init, key, k) + tail;
      assert s == init + [x];
      WithKeyConcat(init, [x], key, k);
      assert WithKey([x], key, k) == tail by {
        assert [x][1..] == [];
      }
    }
  }

  // The filter

  /** Every link comes from an anchor `i` that passes the href test, and its `rel` passes it. */
  lemma {:induction false} KeptLinksSound(anchors: seq<Anchor>, resolve: string -> string, l: Link)
    returns (i: nat)
    requires l in KeptLinks(anchors, resolve)
    ensures i < |anchors| && Kept(anchors[i]) && l == ToLink(anchors[i], resolve)
    ensures IsChapterHref(l.rel)
  {
    var init := anchors[..|anchors| - 1];
    if l in KeptLinks(init, resolve) {
      i := KeptLinksSound(init, resolve, l);
      assert anchors[i] == init[i];
    } else {
      i := |anchors| - 1;
    }
  }

  /** Every anchor that passes the href test gives a link. */
  lemma {:induction false} KeptLinksComplete(anchors: seq<Anchor>, resolve: string -> string, i: nat)
    requires i < |anchors| && Kept(anchors[i])
    ensures ToLink(anchors[i], resolve) in KeptLinks(anchors, resolve)
  {
    var init := anchors[..|anchors| - 1];
    if i < |init| {
      KeptLinksComplete(init, resolve, i);
      assert anchors[i] == init[i];
    }
  }

  /** Every returned link is a chapter link, and the list is ordered by chapter number. */
  lemma ExtractedLinksShape(anchors: seq<Anchor>, resolve: string -> string)
    ensures var links := SortBy(KeptLinks(anchors, resolve), SortKey);
      SortedBy(links, SortKey) &&
      multiset(links) == multiset(KeptLinks(anchors, resolve)) &&
      forall l :: l in links ==> IsChapterHref(l.rel)
  {
    SortBySorted(KeptLinks(anchors, resolve), SortKey);
    SortByPerm(KeptLinks(anchors, resolve), SortKey);
    var links := SortBy(KeptLinks(anchors, resolve), SortKey);
    forall l | l in links
      ensures IsChapterHref(l.rel)
    {
      assert l in multiset(links);
      var _ := KeptLinksSound(anchors, resolve, l);
    }
  }

  // The chapter number

  lemma {:induction false} DigitRunConcat(d: string, e: string)
    requires forall i :: 0 <= i < |d| ==> IsDigit(d[i])
    requires e == [] || !IsDigit(e[0])
    ensures DigitRun(d + e) == d
  {
    if d != [] {
      assert (d + e)[1..] == d[1..] + e;
      DigitRunConcat(d[1..], e);
    }
  }

  /** A file name `chapter_<n>.html` yields the chapter number `n`. */
  lemma ChapterNumberOf(n: nat)
    ensures ChapterNumber("chapter_" + NatToString(n) + ".html") == Some(n)
  {
    var d := NatToString(n);
    var s := "chapter_" + d + ".html";
    assert s[0..] == s;
    assert s[..8] == "chapter_";
    assert s[8..] == d + ".html";
    DigitRunConcat(d, ".html");
    assert s[8 + |d|..] == ".html";
    DigitsValueOfNat(n);
  }

  lemma {:induction false} NoMatchWithoutC(s: string, p: nat)
    requires p <= |s|
    requires forall i :: p <= i < |s| ==> s[i] != 'c'
    ensures SearchFrom(s, p) == None
    decreases |s| - p
  {
    if p < |s| {
      assert s[p..][0] == s[p];
      NoMatchWithoutC(s, p + 1);
    }
  }

  /**
   * The href test ignores case but the number pattern does not: `Chapter_3.html`
   * is kept exactly when `chapter_3.html` would be, yet has no chapter number,
   * so it sorts with key 999.
   */
  lemma CaseBlindFilter(t: string)
    requires forall i :: 0 <= i < |t| ==> t[i] != 'c'
    ensures IsChapterHref("C" + t) == IsChapterHref("c" + t)
    ensures ChapterNumber("C" + t) == None
  {
    LowerConcat("C", t);
    LowerConcat("c", t);
    NoMatchWithoutC("C" + t, 0);
  }
}

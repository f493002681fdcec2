/**
 * `build_manifest`: follow the chapter links in key order, build one chapter
 * record per page, and wrap the records with the fixed book metadata.
 * Fetching and parsing a page are the function `fetch` from the absolute
 * URL to the parsed page; `urljoin` is the function `resolve`; the clock
 * reading taken for a chapter is part of its page.
 */
module ScrapeManifest {
  import opened Wrappers
  import opened PyStr
  import opened Control
  import opened Slug
  import opened Json
  import opened Sanitize
  import opened Links
  import opened Scrape
  import opened Chapter
  import opened ChapterLaws
  import opened Manifest

  /**
   * A fetched chapter page: the `<h1>` text, the `<title>` string, the
   * descendants of the content element, and `datetime.utcnow().isoformat()`
   * as read while the page was processed.
   */
  datatype Page = Page(h1: Option<string>, titleString: Option<string>, content: seq<Node>, clock: string)

  /** The index page: the anchors of the chapter list, and the texts of `.subtitle` and `.author` if present. */
  datatype IndexPage = IndexPage(anchors: seq<Anchor>, subtitle: Option<string>, author: Option<string>)

  /** The chapter number of the file name, else one more than the chapters built so far. */
  function ChapterOrder(rel: string, count: nat): nat {
    match ChapterNumber(rel)
    case Some(n) => n
    case None => count + 1
  }

  /** `f"chapter-{order}-{slugify(title)}"` */
  function ChapterSlug(order: nat, title: string): string {
    "chapter-" + NatToString(order) + "-" + Slugify(title)
  }

  /** The dictionary `ch` of one chapter. */
  function Record(order: nat, title: string, body: string, url: string, scrapedAt: string): JValue {
    JObj([("order", JInt(order)), ("title", JStr(title)), ("body", JStr(body)),
          ("tags", JArr([])), ("themes", JArr([])),
          ("metadata", JObj([("source_url", JStr(url)), ("scraped_at", JStr(scrapedAt))])),
          ("slug", JStr(ChapterSlug(order, title)))])
  }

  /** The record built for link `l`, whose page is `p`, after `count` earlier chapters. */
  function ChapterRecord(l: Link, p: Page, count: nat): JValue {
    Record(ChapterOrder(l.rel, count), ExtractTitle(p.h1, p.titleString), ScrapedBody(p.content),
           l.abs, p.clock + "Z")
  }

  /** `make` applied to each link and its position. */
  function Indexed(links: seq<Link>, make: (Link, nat) -> JValue): (r: seq<JValue>)
    ensures |r| == |links|
    ensures forall i :: 0 <= i < |links| ==> r[i] == make(links[i], i)
  {
    seq(|links|, i requires 0 <= i < |links| => make(links[i], i))
  }

  lemma IndexedSnoc(links: seq<Link>, make: (Link, nat) -> JValue, i: nat)
    requires i < |links|
    ensures Indexed(links[..i + 1], make) == Indexed(links[..i], make) + [make(links[i], i)]
  {
    var a := Indexed(links[..i + 1], make);
    var b := Indexed(links[..i], make) + [make(links[i], i)];
    assert forall j :: 0 <= j < |a| ==> a[j] == b[j];
  }

  /** The record of a link at a position, the page being fetched from the link's URL. */
  function MakeRecord(fetch: string -> Page): (Link, nat) -> JValue {
    (l: Link, count: nat) => ChapterRecord(l, fetch(l.abs), count)
  }

  /** The list `chapters` after the loop over `links`: the `i`-th link's record, built after `i` others. */
  function Chapters(links: seq<Link>, fetch: string -> Page): seq<JValue> {
    Indexed(links, MakeRecord(fetch))
  }

  /** `author_el.get_text(strip=True).replace("by ", "")`, or "Unknown" without the element. */
  function Author(author: Option<string>): string {
    if author.Some? then ReplaceAll(author.value, "by ", "") else "Unknown"
  }

  function Book(index: IndexPage): JValue {
    JObj([("title", JStr("Sacred Circuits: The Odyssey")),
          ("author", JStr(Author(index.author))),
          ("subtitle", if index.subtitle.Some? then JStr(index.subtitle.value) else JNull),
          ("genre", JArr([JStr("Memoir"), JStr("Travel")])),
          ("tags", JArr([JStr("Odyssey"), JStr("Digital Age"), JStr("Psychedelics"), JStr("Travel")])),
          ("publication_date", JNull)])
  }

  /** A leading "by " is dropped; a name without any "by " is kept; no element gives "Unknown". */
  lemma AuthorOf(name: string)
    requires Absent(name, "by ")
    ensures Author(Some("by " + name)) == name
    ensures Author(Some(name)) == name
    ensures Author(None) == "Unknown"
  {
    var pat := "by ";
    var s := pat + name;
    assert s[..|pat|] == pat && s[|pat|..] == name;
    ReplaceAbsent(name, pat, "");
  }

  /** The book record holds the fixed title, the author and the subtitle, or `null` without one. */
  lemma BookLookups(index: IndexPage)
    ensures var fs := Book(index).fields;
      Lookup(fs, "title") == Some(JStr("Sacred Circuits: The Odyssey")) &&
      Lookup(fs, "author") == Some(JStr(Author(index.author))) &&
      Lookup(fs, "subtitle") == Some(if index.subtitle.Some? then JStr(index.subtitle.value) else JNull) &&
      Lookup(fs, "publication_date") == Some(JNull)
  {
    var fs := Book(index).fields;
    var k1 := "subtitle";
    assert k1 != "title" && k1 != "author";
    LookupAt(fs, k1, 2);
    var k2 := "publication_date";
    assert k2 != "title" && k2 != "author" && k2 != "subtitle" && k2 != "genre" && k2 != "tags";
    LookupAt(fs, k2, 5);
  }

  /** The dictionary `manifest` around the book and the chapters. */
  function Wrap(book: JValue, chapters: seq<JValue>): JValue {
    JObj([("book", book), ("chapters", JArr(chapters)),
          ("ready_for_import", JBool(true)), ("manifest_version", JStr("1.0"))])
  }

  /** The manifest `build_manifest` returns. */
  function Scraped(index: IndexPage, resolve: string -> string, fetch: string -> Page): JValue {
    Wrap(Book(index), Chapters(SortBy(KeptLinks(index.anchors, resolve), SortKey), fetch))
  }

  /** The chapter loop of `build_manifest`. */
  method BuildChapters(links: seq<Link>, fetch: string -> Page) returns (chapters: seq<JValue>)
    ensures chapters == Chapters(links, fetch)
  {
    chapters := [];
    var i := 0;
    while i < |links|
      invariant 0 <= i <= |links|
      invariant chapters == Chapters(links[..i], fetch)
    {
      IndexedSnoc(links, MakeRecord(fetch), i);
      var l := links[i];
      var page := fetch(l.abs);
      var title := ExtractTitle(page.h1, page.titleString);
      var m := ChapterNumber(l.rel);
      var order := if m.Some? then m.value else |chapters| + 1;
      var text := HtmlToTextBlock(page.content);
      var body := CleanStr(text);
      var ch := JObj([("order", JInt(order)), ("title", JStr(title)), ("body", JStr(body)),
                      ("tags", JArr([])), ("themes", JArr([])),
                      ("metadata", JObj([("source_url", JStr(l.abs)), ("scraped_at", JStr(page.clock + "Z"))])),
                      ("slug", JStr("chapter-" + NatToString(order) + "-" + Slugify(title)))]);
      chapters := chapters + [ch];
      i := i + 1;
    }
    assert links[..i] == links;
  }

  /** `build_manifest` on the parsed index page. */
  method BuildManifest(index: IndexPage, resolve: string -> string, fetch: string -> Page) returns (manifest: JValue)
    ensures manifest == Scraped(index, resolve, fetch)
  {
    var links := ExtractChapterLinks(index.anchors, resolve);
    var chapters := BuildChapters(links, fetch);
    var author := if index.author.Some? then ReplaceAll(index.author.value, "by ", "") else "Unknown";
    var subtitle := if index.subtitle.Some? then JStr(index.subtitle.value) else JNull;
    var book := JObj([("title", JStr("Sacred Circuits: The Odyssey")),
                      ("author", JStr(author)),
                      ("subtitle", subtitle),
                      ("genre", JArr([JStr("Memoir"), JStr("Travel")])),
                      ("tags", JArr([JStr("Odyssey"), JStr("Digital Age"), JStr("Psychedelics"), JStr("Travel")])),
                      ("publication_date", JNull)]);
    manifest := JObj([("book", book), ("chapters", JArr(chapters)),
                      ("ready_for_import", JBool(true)), ("manifest_version", JStr("1.0"))]);
  }

  // Properties of the records

  /** A link to `chapter_<n>.html` gives a chapter whose order is `n`, wherever it stands. */
  lemma NumberedOrder(n: nat, count: nat)
    ensures ChapterOrder("chapter_" + NatToString(n) + ".html", count) == n
  {
    ChapterNumberOf(n);
  }

  /** The order can be read back off the slug: the digits after `chapter-`. */
  lemma SlugOrderRoundTrip(order: nat, title: string)
    ensures var slug := ChapterSlug(order, title);
      |slug| >= 8 && DigitsValue(DigitRun(slug[8..])) == order
  {
    var d := NatToString(order);
    var slug := ChapterSlug(order, title);
    var rest := "-" + Slugify(title);
    assert slug == "chapter-" + (d + rest);
    assert slug[8..] == d + rest;
    DigitRunConcat(d, rest);
    DigitsValueOfNat(order);
  }

  /** Two chapters with the same slug have the same order. */
  lemma SlugDeterminesOrder(o1: nat, t1: string, o2: nat, t2: string)
    requires ChapterSlug(o1, t1) == ChapterSlug(o2, t2)
    ensures o1 == o2
  {
    SlugOrderRoundTrip(o1, t1);
    SlugOrderRoundTrip(o2, t2);
  }

  /** A scraped slug holds only characters the control-character strip keeps. */
  lemma SlugNoCtrl(order: nat, title: string)
    ensures NoCtrl(ChapterSlug(order, title))
  {
    var p := "chapter-";
    assert NoCtrl(p) by {
      assert forall i :: 0 <= i < |p| ==> p[i] >= ' ';
    }
    var d := NatToString(order);
    assert NoCtrl(d);
    SlugifyAlphabet(title);
    SlugAlphabetNoCtrl(Slugify(title));
    NoCtrlConcat(p, d);
    NoCtrlConcat(p + d, "-");
    NoCtrlConcat(p + d + "-", Slugify(title));
  }

  // The scraped manifest and the repair pass

  /** The entries of a scraped record that the repair pass reads. */
  lemma RecordLookups(order: nat, title: string, body: string, url: string, scrapedAt: string)
    ensures var fs := Record(order, title, body, url, scrapedAt).fields;
      Lookup(fs, "order") == Some(JInt(order)) &&
      Lookup(fs, "title") == Some(JStr(title)) &&
      Lookup(fs, "slug") == Some(JStr(ChapterSlug(order, title))) &&
      !Has(fs, "number")
  {
    var fs := Record(order, title, body, url, scrapedAt).fields;
    var k1 := "slug";
    assert k1 != "order" && k1 != "title" && k1 != "body" && k1 != "tags" && k1 != "themes" && k1 != "metadata";
    LookupAt(fs, k1, 6);
    var k2 := "number";
    assert k2 != "order" && k2 != "title" && k2 != "body" && k2 != "tags" && k2 != "themes" && k2 != "metadata" && k2 != "slug";
    LookupNone(fs, k2);
  }

  /** A scraped record, once sanitised, is one `transform_chapter` accepts. */
  lemma SanitizedRecord(order: nat, title: string, body: string, url: string, scrapedAt: string)
    ensures var fs := SanitizeStrings(Record(order, title, body, url, scrapedAt)).fields;
      ChapterOk(fs) &&
      Get(fs, "order") == JInt(order) && !Has(fs, "number") &&
      Get(fs, "slug") == JStr(ChapterSlug(order, title))
  {
    var rec := Record(order, title, body, url, scrapedAt).fields;
    var fs := SanitizeStrings(Record(order, title, body, url, scrapedAt)).fields;
    var slug := ChapterSlug(order, title);
    RecordLookups(order, title, body, url, scrapedAt);
    LookupSanitized(rec, "order");
    LookupSanitized(rec, "title");
    LookupSanitized(rec, "slug");
    LookupSanitized(rec, "number");
    SlugNoCtrl(order, title);
    CleanStrFixpoint(slug);
  }

  /** The repair pass keeps the order and the slug the scraper wrote. */
  lemma RepairKeepsScrapedOrderAndSlug(order: nat, title: string, body: string, url: string, scrapedAt: string)
    ensures var fs := SanitizeStrings(Record(order, title, body, url, scrapedAt)).fields;
      ChapterOk(fs) &&
      Lookup(NormalizeChapter(fs), "order") == Some(JInt(order)) &&
      Lookup(NormalizeChapter(fs), "slug") == Some(JStr(ChapterSlug(order, title)))
  {
    var fs := SanitizeStrings(Record(order, title, body, url, scrapedAt)).fields;
    var slug := ChapterSlug(order, title);
    SanitizedRecord(order, title, body, url, scrapedAt);
    SlugNoCtrl(order, title);
    CleanStrFixpoint(slug);
    assert DerivedOrder(fs) == order;
    assert DerivedSlug(fs) == slug;
    NormalizedFields(fs);
  }

  lemma SanitizedRecordOk(l: Link, p: Page, count: nat)
    ensures SanitizeStrings(ChapterRecord(l, p, count)).JObj?
    ensures ChapterOk(SanitizeStrings(ChapterRecord(l, p, count)).fields)
  {
    SanitizedRecord(ChapterOrder(l.rel, count), ExtractTitle(p.h1, p.titleString),
                    ScrapedBody(p.content), l.abs, p.clock + "Z");
  }

  /** Every scraped chapter, once sanitised, is a record `transform_chapter` accepts. */
  lemma SanitizedChaptersOk(links: seq<Link>, fetch: string -> Page)
    ensures SanitizeStrings(JArr(Chapters(links, fetch))).JArr?
    ensures AllChaptersOk(SanitizeStrings(JArr(Chapters(links, fetch))).items)
  {
    var chs := Chapters(links, fetch);
    var items := SanitizeStrings(JArr(chs)).items;
    forall i | 0 <= i < |items|
      ensures items[i].JObj? && ChapterOk(items[i].fields)
    {
      SanitizedRecordOk(links[i], fetch(links[i].abs), i);
    }
  }

  /** Once sanitised, the manifest has its chapter list at the top level. */
  lemma WrapRepairable(book: JValue, chapters: seq<JValue>)
    requires AllChaptersOk(SanitizeStrings(JArr(chapters)).items)
    ensures var s := SanitizeStrings(Wrap(book, chapters));
      TopLevelList(s) && ChaptersOk(s)
  {
    var m := Wrap(book, chapters);
    var k := "chapters";
    assert k != "book";
    LookupAt(m.fields, k, 1);
    LookupSanitized(m.fields, k);
  }

  /**
   * The repair pass accepts what the scraper writes: once sanitised, the
   * manifest has its chapter list at the top level and every chapter is a
   * record `transform_chapter` accepts.
   */
  lemma ScrapedRepairable(index: IndexPage, resolve: string -> string, fetch: string -> Page)
    ensures var s := SanitizeStrings(Scraped(index, resolve, fetch));
      TopLevelList(s) && ChaptersOk(s)
  {
    var links := SortBy(KeptLinks(index.anchors, resolve), SortKey);
    SanitizedChaptersOk(links, fetch);
    WrapRepairable(Book(index), Chapters(links, fetch));
  }
}

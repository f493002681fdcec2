/**
 * `transform_chapter`: normalise one chapter record. The record is copied,
 * its `number` and `order` are coerced to integers, `slug`, `title`,
 * `summary`, `tags` and `body` are derived from what the record holds, and
 * the legacy `content`, `paragraphs` and `text` entries are dropped.
 *
 * `NormalizeChapter` states the result field by field, each field computed
 * from the input record; `TransformChapter` performs the key-by-key updates
 * on the copy, each reading the copy as it stands at that point.
 */
module Chapter {
  import opened Wrappers
  import opened PyStr
  import opened Control
  import opened Slug
  import opened Json
  import opened Sanitize
  import opened Flatten

  /** `to_int(value, default)`: `int(value)`, or `default` where `int` raises. */
  function ToInt(v: JValue, default: int): int {
    match v
    case JInt(i) => i
    case JBool(b) => if b then 1 else 0
    case JStr(s) => ParseInt(s).GetOr(default)
    case _ => default
  }

  /**
   * The records `transform_chapter` accepts: a record whose `slug` is falsy
   * and whose `title` is truthy must hold a string title, since the title is
   * then lower-cased (anything else raises).
   */
  predicate ChapterOk(fs: Fields) {
    !Truthy(Get(fs, "slug")) && Truthy(Get(fs, "title")) ==> Get(fs, "title").JStr?
  }

  /** `ch.get("number", 0)` once `number` has been coerced. */
  function NumberOrZero(fs: Fields): int {
    if Has(fs, "number") then ToInt(Get(fs, "number"), 0) else 0
  }

  /** The new `order`: a non-zero coerced `order`, else the coerced `number`, else 0. */
  function DerivedOrder(fs: Fields): int {
    var o := ToInt(Get(fs, "order"), 0);
    if Has(fs, "order") && o != 0 then o else NumberOrZero(fs)
  }

  /** The new `slug` from the read `slug`, `title` and new `order`. */
  function SlugFrom(slug: JValue, title: JValue, order: int): string
    requires !Truthy(slug) && Truthy(title) ==> title.JStr?
  {
    if Truthy(slug) then CleanStr(Str(slug))
    else Slugify(if Truthy(title) then title.s else "chapter-" + IntToString(order))
  }

  /** The new `slug`: a truthy slug cleaned, else one built from the title or the order. */
  function DerivedSlug(fs: Fields): string
    requires ChapterOk(fs)
  {
    SlugFrom(Get(fs, "slug"), Get(fs, "title"), DerivedOrder(fs))
  }

  /** The new `title` from the read `title` and new `order`. */
  function TitleFrom(title: JValue, order: int): string {
    if Truthy(title) then CleanStr(Str(title)) else "Chapter " + IntToString(order)
  }

  /** The new `title`: a truthy title cleaned, else `Chapter {order}`. */
  function DerivedTitle(fs: Fields): string {
    TitleFrom(Get(fs, "title"), DerivedOrder(fs))
  }

  /** The new `summary` from the read `summary`. */
  function SummaryFrom(summary: JValue): string {
    if summary.JStr? then CleanStr(summary.s) else ""
  }

  /** The new `summary`: a string summary cleaned, anything else "". */
  function DerivedSummary(fs: Fields): string {
    SummaryFrom(Get(fs, "summary"))
  }

  /** `[clean_str(str(t)) for t in tags if t is not None]` */
  function TagStrings(xs: seq<JValue>): (r: seq<JValue>)
    ensures |r| == |DropNulls(xs)|
    ensures forall i :: 0 <= i < |r| ==> r[i] == JStr(CleanStr(Str(DropNulls(xs)[i])))
  {
    if xs == [] then []
    else (if xs[0].JNull? then [] else [JStr(CleanStr(Str(xs[0])))]) + TagStrings(xs[1..])
  }

  /** The `tags` value read with `[]` as default, wrapped in a list unless it is one. */
  function TagList(fs: Fields): seq<JValue> {
    var tags := Lookup(fs, "tags").GetOr(JArr([]));
    if tags.JArr? then tags.items else [tags]
  }

  function DerivedTags(fs: Fields): seq<JValue> {
    TagStrings(TagList(fs))
  }

  /** The first non-empty flattening of `content`, then `paragraphs`, then `text`. */
  function FallbackBody(fs: Fields): (r: string)
    ensures NoCtrl(r)
  {
    var content := Get(fs, "content");
    var t0 := if content != JNull then ExtractText(content) else "";
    var t1 := if t0 == "" && Has(fs, "paragraphs") then ExtractText(Get(fs, "paragraphs")) else t0;
    if t1 == "" && Has(fs, "text") then ExtractText(Get(fs, "text")) else t1
  }

  /** The new `body` from the read `body` and the flattened fallback. */
  function BodyFrom(body: JValue, fallback: string): string {
    if body.JStr? && !IsBlank(body.s) then CleanStr(body.s) else CleanStr(fallback)
  }

  /** The new `body`: a non-blank string body cleaned, else the cleaned fallback. */
  function DerivedBody(fs: Fields): string {
    BodyFrom(Get(fs, "body"), FallbackBody(fs))
  }

  /** What the returned record holds under `k`, key by key. */
  function Expected(fs: Fields, k: string): Option<JValue>
    requires ChapterOk(fs)
  {
    if k == "number" then (if Has(fs, "number") then Some(JInt(NumberOrZero(fs))) else None)
    else if k == "order" then Some(JInt(DerivedOrder(fs)))
    else if k == "slug" then Some(JStr(DerivedSlug(fs)))
    else if k == "title" then Some(JStr(DerivedTitle(fs)))
    else if k == "summary" then Some(JStr(DerivedSummary(fs)))
    else if k == "tags" then Some(JArr(DerivedTags(fs)))
    else if k == "body" then Some(JStr(DerivedBody(fs)))
    else if k == "content" || k == "paragraphs" || k == "text" then None
    else Lookup(fs, k)
  }

  /** The record `transform_chapter` returns: each update applied to the copy in turn. */
  function NormalizeChapter(fs: Fields): Fields
    requires ChapterOk(fs)
  {
    var f0 := if Has(fs, "number") then Assign(fs, "number", JInt(NumberOrZero(fs))) else fs;
    var f1 := Assign(f0, "order", JInt(DerivedOrder(fs)));
    var f2 := Assign(f1, "slug", JStr(DerivedSlug(fs)));
    var f3 := Assign(f2, "title", JStr(DerivedTitle(fs)));
    var f4 := Assign(f3, "summary", JStr(DerivedSummary(fs)));
    var f5 := Assign(f4, "tags", JArr(DerivedTags(fs)));
    var f6 := Assign(f5, "body", JStr(DerivedBody(fs)));
    Remove(Remove(Remove(f6, "content"), "paragraphs"), "text")
  }

  /** Every key of the result holds what `Expected` says, and nothing else is there. */
  lemma NormalizedLookup(fs: Fields, k: string)
    requires ChapterOk(fs)
    ensures Lookup(NormalizeChapter(fs), k) == Expected(fs, k)
  {
    var f0 := if Has(fs, "number") then Assign(fs, "number", JInt(NumberOrZero(fs))) else fs;
    var f1 := Assign(f0, "order", JInt(DerivedOrder(fs)));
    var f2 := Assign(f1, "slug", JStr(DerivedSlug(fs)));
    var f3 := Assign(f2, "title", JStr(DerivedTitle(fs)));
    var f4 := Assign(f3, "summary", JStr(DerivedSummary(fs)));
    var f5 := Assign(f4, "tags", JArr(DerivedTags(fs)));
    var f6 := Assign(f5, "body", JStr(DerivedBody(fs)));
    var r := Remove(Remove(Remove(f6, "content"), "paragraphs"), "text");
    if Has(fs, "number") {
      AssignLookup(fs, "number", JInt(NumberOrZero(fs)), k);
    }
    AssignLookup(f0, "order", JInt(DerivedOrder(fs)), k);
    AssignLookup(f1, "slug", JStr(DerivedSlug(fs)), k);
    AssignLookup(f2, "title", JStr(DerivedTitle(fs)), k);
    AssignLookup(f3, "summary", JStr(DerivedSummary(fs)), k);
    AssignLookup(f4, "tags", JArr(DerivedTags(fs)), k);
    AssignLookup(f5, "body", JStr(DerivedBody(fs)), k);
    RemoveLookup(f6, "content", k);
    RemoveLookup(Remove(f6, "content"), "paragraphs", k);
    RemoveLookup(Remove(Remove(f6, "content"), "paragraphs"), "text", k);
    assert r == NormalizeChapter(fs);
  }
  /** The fields `transform_chapter` writes or drops, one by one. */
  lemma NormalizedFields(fs: Fields)
    requires ChapterOk(fs)
    ensures var r := NormalizeChapter(fs);
      Lookup(r, "number") == (if Has(fs, "number") then Some(JInt(NumberOrZero(fs))) else None) &&
      Lookup(r, "order") == Some(JInt(DerivedOrder(fs))) &&
      Lookup(r, "slug") == Some(JStr(DerivedSlug(fs))) &&
      Lookup(r, "title") == Some(JStr(DerivedTitle(fs))) &&
      Lookup(r, "summary") == Some(JStr(DerivedSummary(fs))) &&
      Lookup(r, "tags") == Some(JArr(DerivedTags(fs))) &&
      Lookup(r, "body") == Some(JStr(DerivedBody(fs))) &&
      !Has(r, "content") && !Has(r, "paragraphs") && !Has(r, "text")
  {
    var k0 := "number";
    NormalizedLookup(fs, k0);
    var k1 := "order";
    assert k1 != "number";
    NormalizedLookup(fs, k1);
    var k2 := "slug";
    assert k2 != "number" && k2 != "order";
    NormalizedLookup(fs, k2);
    var k3 := "title";
    assert k3 != "number" && k3 != "order" && k3 != "slug";
    NormalizedLookup(fs, k3);
    var k4 := "summary";
    assert k4 != "number" && k4 != "order" && k4 != "slug" && k4 != "title";
    NormalizedLookup(fs, k4);
    var k5 := "tags";
    assert k5 != "number" && k5 != "order" && k5 != "slug" && k5 != "title" && k5 != "summary";
    NormalizedLookup(fs, k5);
    var k6 := "body";
    assert k6 != "number" && k6 != "order" && k6 != "slug" && k6 != "title" && k6 != "summary" && k6 != "tags";
    NormalizedLookup(fs, k6);
    var k7 := "content";
    assert k7 != "number" && k7 != "order" && k7 != "slug" && k7 != "title" && k7 != "summary" && k7 != "tags" && k7 != "body";
    NormalizedLookup(fs, k7);
    var k8 := "paragraphs";
    assert k8 != "number" && k8 != "order" && k8 != "slug" && k8 != "title" && k8 != "summary" && k8 != "tags" && k8 != "body" && k8 != "content";
    NormalizedLookup(fs, k8);
    var k9 := "text";
    assert k9 != "number" && k9 != "order" && k9 != "slug" && k9 != "title" && k9 != "summary" && k9 != "tags" && k9 != "body" && k9 != "content" && k9 != "paragraphs";
    NormalizedLookup(fs, k9);
  }


  /** `NormalizeChapter` as the updates it makes, given the values it writes. */
  lemma NormalizeChapterSteps(fs: Fields, number: JValue, order: JValue, slug: JValue, title: JValue,
                               summary: JValue, tags: JValue, body: JValue)
    requires ChapterOk(fs)
    requires number == JInt(NumberOrZero(fs)) && order == JInt(DerivedOrder(fs))
    requires slug == JStr(DerivedSlug(fs)) && title == JStr(DerivedTitle(fs))
    requires summary == JStr(DerivedSummary(fs)) && tags == JArr(DerivedTags(fs))
    requires body == JStr(DerivedBody(fs))
    ensures NormalizeChapter(fs) ==
      Remove(Remove(Remove(Assign(Assign(Assign(Assign(Assign(Assign(
        if Has(fs, "number") then Assign(fs, "number", number) else fs,
        "order", order), "slug", slug), "title", title), "summary", summary), "tags", tags),
        "body", body), "content"), "paragraphs"), "text")
  {
  }

  /** The entries the body is resolved from. */
  function BodyInputs(fs: Fields): (Option<JValue>, Option<JValue>, Option<JValue>, Option<JValue>) {
    (Lookup(fs, "body"), Lookup(fs, "content"), Lookup(fs, "paragraphs"), Lookup(fs, "text"))
  }

  /** The entries read from `tags` on. */
  function TagInputs(fs: Fields): (Option<JValue>, (Option<JValue>, Option<JValue>, Option<JValue>, Option<JValue>)) {
    (Lookup(fs, "tags"), BodyInputs(fs))
  }

  /** The entries read from `summary` on. */
  function Pending(fs: Fields): (Option<JValue>, (Option<JValue>, (Option<JValue>, Option<JValue>, Option<JValue>, Option<JValue>))) {
    (Lookup(fs, "summary"), TagInputs(fs))
  }

  lemma AssignKeepsBodyInputs(fs: Fields, k: string, v: JValue)
    requires k != "body" && k != "content" && k != "paragraphs" && k != "text"
    ensures BodyInputs(Assign(fs, k, v)) == BodyInputs(fs)
  {
    AssignLookup(fs, k, v, "body");
    AssignLookup(fs, k, v, "content");
    AssignLookup(fs, k, v, "paragraphs");
    AssignLookup(fs, k, v, "text");
  }

  lemma AssignKeepsTagInputs(fs: Fields, k: string, v: JValue)
    requires k != "tags" && k != "body" && k != "content" && k != "paragraphs" && k != "text"
    ensures TagInputs(Assign(fs, k, v)) == TagInputs(fs)
  {
    AssignLookup(fs, k, v, "tags");
    AssignKeepsBodyInputs(fs, k, v);
  }

  lemma AssignKeepsPending(fs: Fields, k: string, v: JValue)
    requires k != "summary" && k != "tags" && k != "body" && k != "content" && k != "paragraphs" && k != "text"
    ensures Pending(Assign(fs, k, v)) == Pending(fs)
  {
    AssignLookup(fs, k, v, "summary");
    AssignKeepsTagInputs(fs, k, v);
  }

  lemma FallbackBodySameInputs(fs: Fields, gs: Fields)
    requires BodyInputs(fs) == BodyInputs(gs)
    ensures FallbackBody(fs) == FallbackBody(gs)
  {
    assert Get(fs, "content") == Get(gs, "content");
    assert Get(fs, "paragraphs") == Get(gs, "paragraphs");
    assert Get(fs, "text") == Get(gs, "text");
  }

  /** `transform_chapter(ch)`, one update of the copied record at a time. */
  method TransformChapter(ch: JValue) returns (out: JValue)
    requires ch.JObj? && ChapterOk(ch.fields)
    ensures out == JObj(NormalizeChapter(ch.fields))
  {
    var fs := ch.fields;
    var c := fs;
    // number and order
    var number := JInt(ToInt(Get(c, "number"), 0));
    if Has(c, "number") {
      AssignKeepsPending(c, "number", number);
      AssignLookup(c, "number", number, "order");
      AssignLookup(c, "number", number, "slug");
      AssignLookup(c, "number", number, "title");
      AssignLookup(c, "number", number, "number");
      c := Assign(c, "number", number);
    }
    assert Pending(c) == Pending(fs);
    var o := ToInt(Get(c, "order"), 0);
    var coerced := Lookup(c, "number").GetOr(JInt(0));
    var newOrder := if Has(c, "order") && o != 0 then JInt(o) else coerced;
    assert newOrder == JInt(DerivedOrder(fs));
    AssignKeepsPending(c, "order", newOrder);
    AssignLookup(c, "order", newOrder, "slug");
    AssignLookup(c, "order", newOrder, "title");
    AssignLookup(c, "order", newOrder, "order");
    c := Assign(c, "order", newOrder);
    // slug
    var order := Get(c, "order").i;
    assert order == DerivedOrder(fs);
    var slug := Get(c, "slug");
    var title := Get(c, "title");
    assert slug == Get(fs, "slug") && title == Get(fs, "title");
    var newSlug := JStr(SlugFrom(slug, title, order));
    AssignKeepsPending(c, "slug", newSlug);
    AssignLookup(c, "slug", newSlug, "title");
    c := Assign(c, "slug", newSlug);
    // title
    title := Get(c, "title");
    var newTitle := JStr(TitleFrom(title, order));
    AssignKeepsPending(c, "title", newTitle);
    c := Assign(c, "title", newTitle);
    assert Pending(c) == Pending(fs);
    // summary
    var summary := Get(c, "summary");
    var newSummary := JStr(SummaryFrom(summary));
    AssignKeepsTagInputs(c, "summary", newSummary);
    c := Assign(c, "summary", newSummary);
    assert TagInputs(c) == TagInputs(fs);
    // tags
    var tags := Lookup(c, "tags").GetOr(JArr([]));
    tags := if tags.JArr? then tags else JArr([tags]);
    assert tags.items == TagList(fs);
    var newTags := JArr(TagStrings(tags.items));
    AssignKeepsBodyInputs(c, "tags", newTags);
    c := Assign(c, "tags", newTags);
    assert BodyInputs(c) == BodyInputs(fs);
    // body
    var body := Get(c, "body");
    assert body == Get(fs, "body");
    var text := FallbackBody(c);
    FallbackBodySameInputs(c, fs);
    var newBody := JStr(BodyFrom(body, text));
    c := Assign(c, "body", newBody);
    // legacy entries
    c := Remove(c, "content");
    c := Remove(c, "paragraphs");
    c := Remove(c, "text");
    out := JObj(c);
    NormalizeChapterSteps(fs, number, newOrder, newSlug, newTitle, newSummary, newTags, newBody);
  }
}

/**
 * The repair pass of `main`: sanitise every string of the parsed manifest,
 * then normalise each chapter of the chapter list, which sits either at the
 * top level under `chapters` or under `book.chapters`. Nothing else in the
 * manifest is touched.
 */
module Manifest {
  import opened Wrappers
  import opened PyStr
  import opened Json
  import opened Sanitize
  import opened Chapter
  import opened ChapterLaws

  /** A top-level `chapters` entry holding a list. */
  predicate TopLevelList(raw: JValue) {
    raw.JObj? && Has(raw.fields, "chapters") && Get(raw.fields, "chapters").JArr?
  }

  /** Otherwise a `book` object whose `chapters` entry holds a list. */
  predicate BookList(raw: JValue) {
    !TopLevelList(raw) && raw.JObj? && Get(raw.fields, "book").JObj? &&
    Has(Get(raw.fields, "book").fields, "chapters") &&
    Get(Get(raw.fields, "book").fields, "chapters").JArr?
  }

  /** The chapter list `main` normalises, if there is one. */
  function ChapterList(raw: JValue): Option<seq<JValue>> {
    if TopLevelList(raw) then Some(Get(raw.fields, "chapters").items)
    else if BookList(raw) then Some(Get(Get(raw.fields, "book").fields, "chapters").items)
    else None
  }

  /** Chapters `transform_chapter` accepts: records, with a string title wherever the slug is rebuilt from it. */
  predicate AllChaptersOk(chs: seq<JValue>) {
    forall i :: 0 <= i < |chs| ==> chs[i].JObj? && ChapterOk(chs[i].fields)
  }

  predicate ChaptersOk(raw: JValue) {
    ChapterList(raw).Some? ==> AllChaptersOk(ChapterList(raw).value)
  }

  /** `[transform_chapter(ch) for ch in chs]` */
  function NormalizeAll(chs: seq<JValue>): (r: seq<JValue>)
    requires AllChaptersOk(chs)
    ensures |r| == |chs|
    ensures forall i :: 0 <= i < |r| ==> r[i] == JObj(NormalizeChapter(chs[i].fields))
  {
    seq(|chs|, i requires 0 <= i < |chs| && AllChaptersOk(chs) => JObj(NormalizeChapter(chs[i].fields)))
  }

  /** The chapter-list step of `main` on an already sanitised tree. */
  function Unify(raw: JValue): JValue
    requires ChaptersOk(raw)
  {
    if TopLevelList(raw) then
      JObj(Assign(raw.fields, "chapters", JArr(NormalizeAll(Get(raw.fields, "chapters").items))))
    else if BookList(raw) then
      var book := Get(raw.fields, "book").fields;
      var chapters := JArr(NormalizeAll(Get(book, "chapters").items));
      JObj(Assign(raw.fields, "book", JObj(Assign(book, "chapters", chapters))))
    else raw
  }

  /** The tree `main` writes out: sanitised, then its chapter list normalised. */
  function Repair(raw: JValue): JValue
    requires ChaptersOk(SanitizeStrings(raw))
  {
    Unify(SanitizeStrings(raw))
  }

  /** One more chapter normalised at the end of the list. */
  lemma NormalizeAllSnoc(chs: seq<JValue>, ch: JValue)
    requires AllChaptersOk(chs) && ch.JObj? && ChapterOk(ch.fields)
    ensures AllChaptersOk(chs + [ch])
    ensures NormalizeAll(chs + [ch]) == NormalizeAll(chs) + [JObj(NormalizeChapter(ch.fields))]
  {
    assert forall i :: 0 <= i < |chs| ==> (chs + [ch])[i] == chs[i];
    assert (chs + [ch])[|chs|] == ch;
  }

  /** The list comprehension over the chapters, one `transform_chapter` call at a time. */
  method TransformAll(chs: seq<JValue>) returns (out: seq<JValue>)
    requires AllChaptersOk(chs)
    ensures out == NormalizeAll(chs)
  {
    out := [];
    var i := 0;
    while i < |chs|
      invariant 0 <= i <= |chs| && AllChaptersOk(chs[..i])
      invariant out == NormalizeAll(chs[..i])
    {
      assert chs[..i + 1] == chs[..i] + [chs[i]];
      NormalizeAllSnoc(chs[..i], chs[i]);
      var ch := TransformChapter(chs[i]);
      out := out + [ch];
      i := i + 1;
    }
    assert chs[..i] == chs;
  }

  /** Lines 102-109 of `main`: sanitise, then rewrite whichever chapter list is there. */
  method RepairManifest(input: JValue) returns (raw: JValue)
    requires ChaptersOk(SanitizeStrings(input))
    ensures raw == Repair(input)
  {
    raw := SanitizeStrings(input);
    if TopLevelList(raw) {
      var chs := TransformAll(Get(raw.fields, "chapters").items);
      raw := JObj(Assign(raw.fields, "chapters", JArr(chs)));
    } else if raw.JObj? && Get(raw.fields, "book").JObj? && Has(Get(raw.fields, "book").fields, "chapters") {
      var book := Get(raw.fields, "book").fields;
      var chs := Get(book, "chapters");
      if chs.JArr? {
        var out := TransformAll(chs.items);
        raw := JObj(Assign(raw.fields, "book", JObj(Assign(book, "chapters", JArr(out)))));
      }
    }
  }

  /**
   * The chapter list is found where it was, holding the normalised chapters
   * in the same order; without a chapter list the tree is left as it is.
   */
  lemma UnifyChapterList(raw: JValue)
    requires ChaptersOk(raw)
    ensures ChapterList(raw).Some? ==>
      ChapterList(Unify(raw)) == Some(NormalizeAll(ChapterList(raw).value)) &&
      (TopLevelList(Unify(raw)) <==> TopLevelList(raw))
    ensures ChapterList(raw).None? ==> Unify(raw) == raw
  {
    if TopLevelList(raw) {
      var chapters := JArr(NormalizeAll(Get(raw.fields, "chapters").items));
      AssignLookup(raw.fields, "chapters", chapters, "chapters");
    } else if BookList(raw) {
      var book := Get(raw.fields, "book").fields;
      var chapters := JArr(NormalizeAll(Get(book, "chapters").items));
      var newBook := JObj(Assign(book, "chapters", chapters));
      AssignLookup(raw.fields, "book", newBook, "chapters");
      AssignLookup(raw.fields, "book", newBook, "book");
      AssignLookup(book, "chapters", chapters, "chapters");
    }
  }

  /**
   * Only the chapter list changes: every other top-level entry, and every
   * other entry of `book`, reads as before, and the keys keep their order.
   */
  lemma UnifyKeepsOthers(raw: JValue, k: string)
    requires ChaptersOk(raw) && raw.JObj?
    ensures Unify(raw).JObj? && Keys(Unify(raw).fields) == Keys(raw.fields)
    ensures TopLevelList(raw) && k != "chapters" ==> Lookup(Unify(raw).fields, k) == Lookup(raw.fields, k)
    ensures BookList(raw) && k != "book" ==> Lookup(Unify(raw).fields, k) == Lookup(raw.fields, k)
    ensures BookList(raw) ==>
      Get(Unify(raw).fields, "book").JObj? &&
      (k != "chapters" ==>
         Lookup(Get(Unify(raw).fields, "book").fields, k) == Lookup(Get(raw.fields, "book").fields, k))
  {
    if TopLevelList(raw) {
      var chapters := JArr(NormalizeAll(Get(raw.fields, "chapters").items));
      AssignLookup(raw.fields, "chapters", chapters, k);
      AssignKeys(raw.fields, "chapters", chapters);
    } else if BookList(raw) {
      var book := Get(raw.fields, "book").fields;
      var chapters := JArr(NormalizeAll(Get(book, "chapters").items));
      var newBook := JObj(Assign(book, "chapters", chapters));
      AssignLookup(raw.fields, "book", newBook, k);
      AssignLookup(raw.fields, "book", newBook, "book");
      AssignLookup(book, "chapters", chapters, k);
      AssignKeys(raw.fields, "book", newBook);
    }
  }

  /** Normalising clean chapters gives clean chapters. */
  lemma NormalizeAllClean(chs: seq<JValue>)
    requires AllChaptersOk(chs) && AllClean(JArr(chs))
    ensures AllClean(JArr(NormalizeAll(chs)))
  {
    forall i | 0 <= i < |chs|
      ensures AllClean(NormalizeAll(chs)[i])
    {
      assert AllClean(chs[i]);
      NormalizeKeepsClean(chs[i].fields);
    }
  }

  /** The written manifest holds no removed control character in any string value. */
  lemma RepairClean(raw: JValue)
    requires ChaptersOk(SanitizeStrings(raw))
    ensures AllClean(Repair(raw))
  {
    var s := SanitizeStrings(raw);
    SanitizeCleans(raw);
    if TopLevelList(s) {
      var chs := Get(s.fields, "chapters").items;
      LookupClean(s.fields, "chapters");
      NormalizeAllClean(chs);
      AssignClean(s.fields, "chapters", JArr(NormalizeAll(chs)));
    } else if BookList(s) {
      var book := Get(s.fields, "book").fields;
      LookupClean(s.fields, "book");
      var chs := Get(book, "chapters").items;
      LookupClean(book, "chapters");
      NormalizeAllClean(chs);
      AssignClean(book, "chapters", JArr(NormalizeAll(chs)));
      AssignClean(s.fields, "book", JObj(Assign(book, "chapters", JArr(NormalizeAll(chs)))));
    }
  }

  /**
   * Chapters whose derived body is not blank-but-non-empty: a second
   * `transform_chapter` leaves each of them as the first one made it.
   */
  predicate BodiesSettled(chs: seq<JValue>) {
    forall i :: 0 <= i < |chs| ==>
      chs[i].JObj? && (IsBlank(DerivedBody(chs[i].fields)) ==> DerivedBody(chs[i].fields) == "")
  }

  /** Normalising a normalised list of clean, settled chapters changes nothing. */
  lemma NormalizeAllTwice(chs: seq<JValue>)
    requires AllChaptersOk(chs) && AllClean(JArr(chs)) && BodiesSettled(chs)
    ensures AllChaptersOk(NormalizeAll(chs))
    ensures NormalizeAll(NormalizeAll(chs)) == NormalizeAll(chs)
  {
    var n := NormalizeAll(chs);
    forall i | 0 <= i < |n|
      ensures n[i].JObj? && ChapterOk(n[i].fields) && JObj(NormalizeChapter(n[i].fields)) == n[i]
    {
      assert AllClean(chs[i]);
      NormalizeTwice(chs[i].fields);
    }
    assert NormalizeAll(n) == n;
  }

  /** A tree whose chapter list is already normalised is left as it is. */
  lemma UnifyOfNormalized(r: JValue)
    requires ChaptersOk(r)
    requires ChapterList(r).Some? ==> NormalizeAll(ChapterList(r).value) == ChapterList(r).value
    ensures Unify(r) == r
  {
    if TopLevelList(r) {
      var v := Get(r.fields, "chapters");
      assert JArr(v.items) == v;
      AssignSame(r.fields, "chapters", v);
    } else if BookList(r) {
      var bk := Get(r.fields, "book");
      var v := Get(bk.fields, "chapters");
      assert JArr(v.items) == v;
      AssignSame(bk.fields, "chapters", v);
      assert JObj(bk.fields) == bk;
      AssignSame(r.fields, "book", bk);
    }
  }

  /**
   * Repairing a repaired manifest changes nothing, as long as no chapter of
   * the sanitised list derives a body that is blank but not empty.
   */
  lemma RepairTwice(raw: JValue)
    requires ChaptersOk(SanitizeStrings(raw))
    requires ChapterList(SanitizeStrings(raw)).Some? ==> BodiesSettled(ChapterList(SanitizeStrings(raw)).value)
    ensures ChaptersOk(SanitizeStrings(Repair(raw)))
    ensures Repair(Repair(raw)) == Repair(raw)
  {
    var s := SanitizeStrings(raw);
    var r := Repair(raw);
    RepairClean(raw);
    SanitizeFixpoint(r);
    UnifyChapterList(s);
    if ChapterList(s).Some? {
      var chs := ChapterList(s).value;
      SanitizeCleans(raw);
      if TopLevelList(s) {
        LookupClean(s.fields, "chapters");
      } else {
        LookupClean(s.fields, "book");
        LookupClean(Get(s.fields, "book").fields, "chapters");
      }
      NormalizeAllTwice(chs);
    }
    UnifyOfNormalized(r);
  }
}

/**
 * What the chapter normaliser guarantees beyond the field-by-field result:
 * integer round trips of `to_int`, the shape of rebuilt slugs, clean
 * output, tag and order stability, and when normalising a second time
 * changes nothing.
 */
module ChapterLaws {
  import opened Wrappers
  import opened PyStr
  import opened Control
  import opened Slug
  import opened Json
  import opened Sanitize
  import opened Flatten
  import opened Chapter

  /** `to_int(str(i), d) == i`: a decimal string coerces back to its integer. */
  lemma ToIntOfDecimal(i: int, d: int)
    ensures ToInt(JStr(IntToString(i)), d) == i
  {
    ParseIntOfIntToString(i);
  }

  /** The characters of a slug are never removed control characters. */
  lemma SlugAlphabetNoCtrl(s: string)
    requires SlugAlphabet(s)
    ensures NoCtrl(s)
  {
  }

  /** `str(i)` is made of digits and "-". */
  lemma IntToStringNoCtrl(i: int)
    ensures NoCtrl(IntToString(i))
  {
    var s := IntToString(i);
    assert forall k :: 0 <= k < |s| ==> IsDigit(s[k]) || s[k] == '-';
  }

  /** `repr(v)` starts with a character the strip keeps. */
  lemma ReprHead(v: JValue)
    ensures Repr(v) != [] && !IsCtrl(Repr(v)[0])
  {
    match v
    case JInt(i) =>
      var s := IntToString(i);
      assert s[0] == '-' || IsDigit(s[0]);
    case JStr(s) =>
    case JArr(xs) =>
      assert Repr(v) == "[" + Join(", ", ReprItems(xs)) + "]";
    case JObj(fs) =>
      assert Repr(v) == "{" + Join(", ", ReprEntries(fs)) + "}";
    case _ =>
  }

  /** `clean_str(str(v))` of a truthy value of a clean tree is never empty. */
  lemma CleanStrOfTruthy(v: JValue)
    requires Truthy(v) && AllClean(v)
    ensures CleanStr(Str(v)) != []
  {
    if v.JStr? {
      CleanStrFixpoint(v.s);
    } else {
      ReprHead(v);
    }
  }

  /** A slug rebuilt from `chapter-{order}` keeps its leading "c". */
  lemma FallbackSlugNonEmpty(order: int)
    ensures Slugify("chapter-" + IntToString(order)) != []
  {
    var t := "chapter-" + IntToString(order);
    var u := t[1..];
    assert t == "c" + u;
    SlugifyKeepsSlugChars(t);
    LowerConcat("c", u);
    var l := Lower(u);
    assert ("c" + l)[0] == 'c' && ("c" + l)[1..] == l;
  }

  /**
   * A rebuilt slug (the record's own slug is falsy) is made of [a-z0-9-],
   * neither starts nor ends with "-" and never holds "--".
   */
  lemma RebuiltSlugShape(fs: Fields)
    requires ChapterOk(fs) && !Truthy(Get(fs, "slug"))
    ensures var s := DerivedSlug(fs);
      SlugAlphabet(s) && NoDoubleDash(s) && (s != [] ==> s[0] != '-' && s[|s| - 1] != '-')
  {
    var title := Get(fs, "title");
    var text := if Truthy(title) then title.s else "chapter-" + IntToString(DerivedOrder(fs));
    SlugifyAlphabet(text);
    SlugifyDashes(text);
  }

  /** Without a slug or a title, a non-negative order gives exactly `chapter-{order}`. */
  lemma UntitledSlug(fs: Fields)
    requires !Truthy(Get(fs, "slug")) && !Truthy(Get(fs, "title")) && DerivedOrder(fs) >= 0
    ensures DerivedSlug(fs) == "chapter-" + NatToString(DerivedOrder(fs))
  {
    var digits := NatToString(DerivedOrder(fs));
    var t := "chapter-" + digits;
    assert forall k :: 8 <= k < |t| ==> t[k] == digits[k - 8];
    assert SlugAlphabet(t);
    assert NoDoubleDash(t);
    LowerOfSlugAlphabet(t);
    CollapseFixpoint(t);
    assert t[0] == 'c' && IsDigit(t[|t| - 1]);
  }

  /** Every string `transform_chapter` writes is free of removed control characters. */
  lemma DerivedStringsClean(fs: Fields)
    requires ChapterOk(fs)
    ensures NoCtrl(DerivedSlug(fs)) && NoCtrl(DerivedTitle(fs)) && NoCtrl(DerivedSummary(fs))
    ensures NoCtrl(DerivedBody(fs))
    ensures forall i :: 0 <= i < |DerivedTags(fs)| ==> AllClean(DerivedTags(fs)[i])
  {
    if !Truthy(Get(fs, "slug")) {
      RebuiltSlugShape(fs);
      SlugAlphabetNoCtrl(DerivedSlug(fs));
    }
    IntToStringNoCtrl(DerivedOrder(fs));
    NoCtrlConcat("Chapter ", IntToString(DerivedOrder(fs)));
  }

  /** A clean record stays clean: the repair pass leaves no control character behind. */
  lemma NormalizeKeepsClean(fs: Fields)
    requires ChapterOk(fs) && AllClean(JObj(fs))
    ensures AllClean(JObj(NormalizeChapter(fs)))
  {
    DerivedStringsClean(fs);
    var f0 := if Has(fs, "number") then Assign(fs, "number", JInt(NumberOrZero(fs))) else fs;
    if Has(fs, "number") {
      AssignClean(fs, "number", JInt(NumberOrZero(fs)));
    }
    var f1 := Assign(f0, "order", JInt(DerivedOrder(fs)));
    AssignClean(f0, "order", JInt(DerivedOrder(fs)));
    var f2 := Assign(f1, "slug", JStr(DerivedSlug(fs)));
    AssignClean(f1, "slug", JStr(DerivedSlug(fs)));
    var f3 := Assign(f2, "title", JStr(DerivedTitle(fs)));
    AssignClean(f2, "title", JStr(DerivedTitle(fs)));
    var f4 := Assign(f3, "summary", JStr(DerivedSummary(fs)));
    AssignClean(f3, "summary", JStr(DerivedSummary(fs)));
    var f5 := Assign(f4, "tags", JArr(DerivedTags(fs)));
    AssignClean(f4, "tags", JArr(DerivedTags(fs)));
    var f6 := Assign(f5, "body", JStr(DerivedBody(fs)));
    AssignClean(f5, "body", JStr(DerivedBody(fs)));
    RemoveClean(f6, "content");
    RemoveClean(Remove(f6, "content"), "paragraphs");
    RemoveClean(Remove(Remove(f6, "content"), "paragraphs"), "text");
  }

  /** Every value held by a clean object is clean. */
  lemma {:induction false} LookupClean(fs: Fields, k: string)
    requires AllClean(JObj(fs))
    ensures AllClean(Get(fs, k))
  {
    if fs != [] && fs[0].0 != k {
      assert AllClean(JObj(fs[1..])) by {
        assert forall i :: 0 <= i < |fs| - 1 ==> fs[1..][i] == fs[i + 1];
      }
      LookupClean(fs[1..], k);
    }
  }

  lemma {:induction false} DropNullsOfNoNulls(xs: seq<JValue>)
    requires forall i :: 0 <= i < |xs| ==> !xs[i].JNull?
    ensures DropNulls(xs) == xs
  {
    if xs != [] {
      DropNullsOfNoNulls(xs[1..]);
    }
  }

  /** Converting the tags a second time changes nothing. */
  lemma TagStringsIdempotent(xs: seq<JValue>)
    ensures TagStrings(TagStrings(xs)) == TagStrings(xs)
  {
    var r := TagStrings(xs);
    DropNullsOfNoNulls(r);
    forall i | 0 <= i < |r|
      ensures TagStrings(r)[i] == r[i]
    {
      CleanStrIdempotent(Str(DropNulls(xs)[i]));
    }
  }

  /** A missing or null `tags` gives no tags; any other non-list value becomes a one-element list. */
  lemma TagsWrapped(fs: Fields)
    ensures !Has(fs, "tags") || Get(fs, "tags") == JNull ==> DerivedTags(fs) == []
    ensures Has(fs, "tags") && !Get(fs, "tags").JArr? && Get(fs, "tags") != JNull ==>
      DerivedTags(fs) == [JStr(CleanStr(Str(Get(fs, "tags"))))]
  {
    var t := Get(fs, "tags");
    if !Has(fs, "tags") {
      assert TagList(fs) == [];
    } else if !t.JArr? {
      assert TagList(fs) == [t];
      assert TagStrings([t]) == (if t.JNull? then [] else [JStr(CleanStr(Str(t)))]) + TagStrings([]);
    }
  }

  /** After one pass the coerced `number` coerces to itself. */
  lemma NumberStable(fs: Fields)
    requires ChapterOk(fs)
    ensures Has(NormalizeChapter(fs), "number") == Has(fs, "number")
    ensures NumberOrZero(NormalizeChapter(fs)) == NumberOrZero(fs)
  {
    NormalizedFields(fs);
  }

  /** After one pass the derived `order` derives to itself. */
  lemma OrderStable(fs: Fields)
    requires ChapterOk(fs)
    ensures DerivedOrder(NormalizeChapter(fs)) == DerivedOrder(fs)
  {
    NormalizedFields(fs);
    NumberStable(fs);
  }

  /** On a clean record, a second pass keeps the title. */
  lemma TitleStable(fs: Fields)
    requires ChapterOk(fs) && AllClean(JObj(fs))
    ensures DerivedTitle(NormalizeChapter(fs)) == DerivedTitle(fs)
  {
    var t1 := DerivedTitle(fs);
    NormalizedFields(fs);
    var title := Get(fs, "title");
    if Truthy(title) {
      LookupClean(fs, "title");
      CleanStrOfTruthy(title);
    }
    CleanStrIdempotent(Str(title));
    CleanStrFixpoint(t1);
    DerivedStringsClean(fs);
  }

  /** On a clean record, a second pass keeps the slug. */
  lemma SlugStable(fs: Fields)
    requires ChapterOk(fs) && AllClean(JObj(fs))
    ensures ChapterOk(NormalizeChapter(fs))
    ensures DerivedSlug(NormalizeChapter(fs)) == DerivedSlug(fs)
  {
    var f1 := NormalizeChapter(fs);
    var s1 := DerivedSlug(fs);
    NormalizedFields(fs);
    DerivedStringsClean(fs);
    CleanStrFixpoint(s1);
    var slug := Get(fs, "slug");
    var title := Get(fs, "title");
    if Truthy(slug) {
      LookupClean(fs, "slug");
      CleanStrOfTruthy(slug);
    } else if s1 == [] {
      if !Truthy(title) {
        FallbackSlugNonEmpty(DerivedOrder(fs));
      }
      LookupClean(fs, "title");
      CleanStrFixpoint(title.s);
      assert Get(f1, "title") == JStr(title.s);
    }
  }

  lemma SummaryStable(fs: Fields)
    requires ChapterOk(fs)
    ensures DerivedSummary(NormalizeChapter(fs)) == DerivedSummary(fs)
  {
    NormalizedFields(fs);
    var summary := Get(fs, "summary");
    if summary.JStr? {
      CleanStrIdempotent(summary.s);
    }
  }

  lemma TagsStable(fs: Fields)
    requires ChapterOk(fs)
    ensures DerivedTags(NormalizeChapter(fs)) == DerivedTags(fs)
  {
    NormalizedFields(fs);
    TagStringsIdempotent(TagList(fs));
  }

  /** Without `content`, `paragraphs` and `text` there is nothing to fall back on. */
  lemma FallbackOfBare(gs: Fields)
    requires !Has(gs, "content") && !Has(gs, "paragraphs") && !Has(gs, "text")
    ensures FallbackBody(gs) == ""
  {
    assert Get(gs, "content") == JNull;
  }

  /** A record whose body is a clean string, blank only when empty, and nothing to fall back on keeps it. */
  lemma BodyKept(gs: Fields, b: string)
    requires Get(gs, "body") == JStr(b) && NoCtrl(b) && (IsBlank(b) ==> b == "")
    requires !Has(gs, "content") && !Has(gs, "paragraphs") && !Has(gs, "text")
    ensures DerivedBody(gs) == b
  {
    CleanStrFixpoint(b);
    FallbackOfBare(gs);
  }

  /**
   * A second pass keeps the body unless the first pass left a blank but
   * non-empty body, which the second pass then empties.
   */
  lemma BodyStable(fs: Fields)
    requires ChapterOk(fs)
    requires IsBlank(DerivedBody(fs)) ==> DerivedBody(fs) == ""
    ensures DerivedBody(NormalizeChapter(fs)) == DerivedBody(fs)
  {
    NormalizedFields(fs);
    DerivedStringsClean(fs);
    BodyKept(NormalizeChapter(fs), DerivedBody(fs));
  }

  /**
   * On a clean record (as `sanitize_strings` leaves it) whose resolved body
   * is not blank-but-non-empty, a second pass returns the record unchanged.
   */
  lemma NormalizeTwice(fs: Fields)
    requires ChapterOk(fs) && AllClean(JObj(fs))
    requires IsBlank(DerivedBody(fs)) ==> DerivedBody(fs) == ""
    ensures ChapterOk(NormalizeChapter(fs))
    ensures NormalizeChapter(NormalizeChapter(fs)) == NormalizeChapter(fs)
  {
    var f1 := NormalizeChapter(fs);
    NormalizedFields(fs);
    SlugStable(fs);
    NumberStable(fs);
    OrderStable(fs);
    TitleStable(fs);
    SummaryStable(fs);
    TagsStable(fs);
    BodyStable(fs);
    var number := JInt(NumberOrZero(f1));
    var order := JInt(DerivedOrder(f1));
    var slug := JStr(DerivedSlug(f1));
    var title := JStr(DerivedTitle(f1));
    var summary := JStr(DerivedSummary(f1));
    var tags := JArr(DerivedTags(f1));
    var body := JStr(DerivedBody(f1));
    NormalizeChapterSteps(f1, number, order, slug, title, summary, tags, body);
    if Has(f1, "number") {
      AssignSame(f1, "number", number);
    }
    AssignSame(f1, "order", order);
    AssignSame(f1, "slug", slug);
    AssignSame(f1, "title", title);
    AssignSame(f1, "summary", summary);
    AssignSame(f1, "tags", tags);
    AssignSame(f1, "body", body);
    RemoveAbsent(f1, "content");
    RemoveAbsent(f1, "paragraphs");
    RemoveAbsent(f1, "text");
  }

  /**
   * Without the body condition a second pass can differ: a chapter whose only
   * entry is `content: " "` gets the body " " on the first pass and "" on
   * the second, since a blank body falls back and nothing is left to fall
   * back on.
   */
  lemma BlankBodyNotStable()
    ensures var fs := [("content", JStr(" "))];
      ChapterOk(fs) && DerivedBody(fs) == " " &&
      ChapterOk(NormalizeChapter(fs)) && DerivedBody(NormalizeChapter(fs)) == "" &&
      NormalizeChapter(NormalizeChapter(fs)) != NormalizeChapter(fs)
  {
    var fs := [("content", JStr(" "))];
    assert Get(fs, "body") == JNull && Get(fs, "content") == JStr(" ");
    assert FallbackBody(fs) == " ";
    var f1 := NormalizeChapter(fs);
    NormalizedFields(fs);
    assert IsBlank(" ");
    FallbackOfBare(f1);
    NormalizedFields(f1);
  }
}

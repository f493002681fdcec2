/**
 * `extract_text_from_block`: flatten a content block (a string, number,
 * boolean, object or list, nested to any depth) into plain text.
 */
module Flatten {
  import opened Wrappers
  import opened PyStr
  import opened Control
  import opened Json
  import opened Sanitize

  /** `clean_str(v)` for a scalar `v`: its `str`, stripped of control characters. */
  function ScalarText(v: JValue): string {
    CleanStr(Str(v))
  }

  /** `[p for p in parts if p]` */
  function NonEmpty(parts: seq<string>): (r: seq<string>)
    ensures forall i :: 0 <= i < |r| ==> r[i] != [] && r[i] in parts
  {
    if parts == [] then []
    else (if parts[0] == [] then [] else [parts[0]]) + NonEmpty(parts[1..])
  }

  /** The flattened text of a content block. It never holds a removed control character. */
  function ExtractText(v: JValue): (r: string)
    ensures NoCtrl(r)
    decreases v
  {
    match v
    case JNull => []
    case JStr(s) => CleanStr(s)
    case JInt(_) => ScalarText(v)
    case JBool(_) => ScalarText(v)
    case JArr(xs) =>
      var parts := ExtractNonNull(xs);
      JoinNoCtrl("\n\n", parts);
      Join("\n\n", parts)
    case JObj(fs) =>
      var parts := NonEmpty(ObjectParts(fs));
      JoinNoCtrl("\n", parts);
      Join("\n", parts)
  }

  /** `extract_text_from_block(x) for x in xs if x is not None` */
  function ExtractNonNull(xs: seq<JValue>): (r: seq<string>)
    ensures forall i :: 0 <= i < |r| ==> NoCtrl(r[i])
    decreases xs
  {
    if xs == [] then []
    else (if xs[0].JNull? then [] else [ExtractText(xs[0])]) + ExtractNonNull(xs[1..])
  }

  /** `extract_text_from_block(x) for x in xs` */
  function ExtractEach(xs: seq<JValue>): (r: seq<string>)
    ensures |r| == |xs|
    ensures forall i :: 0 <= i < |r| ==> NoCtrl(r[i])
    decreases xs
  {
    if xs == [] then [] else [ExtractText(xs[0])] + ExtractEach(xs[1..])
  }

  /** The cleaned `text` and then `paragraph` entries, each when it is a scalar. */
  function TextParts(fs: Fields): (r: seq<string>)
    ensures forall i :: 0 <= i < |r| ==> NoCtrl(r[i])
  {
    var t := Get(fs, "text");
    var p := Get(fs, "paragraph");
    (if IsScalar(t) then [ScalarText(t)] else []) + (if IsScalar(p) then [ScalarText(p)] else [])
  }

  /** What the `content` entry contributes: each element of a list, or the one flattened block. */
  function ContentParts(fs: Fields): (r: seq<string>)
    ensures forall i :: 0 <= i < |r| ==> NoCtrl(r[i])
    decreases fs, 0
  {
    var i := IndexOf(fs, "content");
    if i < 0 then []
    else
      var e := fs[i];
      assert e.1 < e;
      match e.1
      case JArr(ys) => ExtractEach(ys)
      case JNull => []
      case c => [ExtractText(c)]
  }

  /** What a list-valued `children` entry contributes: each element, flattened. */
  function ChildParts(fs: Fields): (r: seq<string>)
    ensures forall i :: 0 <= i < |r| ==> NoCtrl(r[i])
    decreases fs, 0
  {
    var i := IndexOf(fs, "children");
    if i < 0 then []
    else
      var e := fs[i];
      assert e.1 < e;
      if e.1.JArr? then ExtractEach(e.1.items) else []
  }

  /** The cleaned scalar values, in entry order: the fallback for an unrecognised object. */
  function ScalarValues(fs: Fields): (r: seq<string>)
    ensures forall i :: 0 <= i < |r| ==> NoCtrl(r[i])
  {
    if fs == [] then []
    else (if IsScalar(fs[0].1) then [ScalarText(fs[0].1)] else []) + ScalarValues(fs[1..])
  }

  function StructuredParts(fs: Fields): (r: seq<string>)
    ensures forall i :: 0 <= i < |r| ==> NoCtrl(r[i])
    decreases fs, 1
  {
    TextParts(fs) + ContentParts(fs) + ChildParts(fs)
  }

  /** The `parts` list an object builds before the empty ones are dropped. */
  function ObjectParts(fs: Fields): (r: seq<string>)
    ensures forall i :: 0 <= i < |r| ==> NoCtrl(r[i])
    decreases fs, 2
  {
    var parts := StructuredParts(fs);
    if parts == [] then ScalarValues(fs) else parts
  }

  /** The list without its `None` elements. */
  function DropNulls(xs: seq<JValue>): seq<JValue> {
    if xs == [] then [] else (if xs[0].JNull? then [] else [xs[0]]) + DropNulls(xs[1..])
  }

  lemma {:induction false} ExtractNonNullConcat(xs: seq<JValue>, ys: seq<JValue>)
    ensures ExtractNonNull(xs + ys) == ExtractNonNull(xs) + ExtractNonNull(ys)
  {
    if xs == [] {
      assert xs + ys == ys;
    } else {
      var t := xs[1..];
      var h := if xs[0].JNull? then [] else [ExtractText(xs[0])];
      ExtractNonNullConcat(t, ys);
      calc {
        ExtractNonNull(xs + ys);
        { ConsConcat(xs, ys); }
        h + ExtractNonNull(t + ys);
        h + (ExtractNonNull(t) + ExtractNonNull(ys));
        (h + ExtractNonNull(t)) + ExtractNonNull(ys);
        ExtractNonNull(xs) + ExtractNonNull(ys);
      }
    }
  }

  lemma {:induction false} ExtractNonNullDropNulls(xs: seq<JValue>)
    ensures ExtractNonNull(DropNulls(xs)) == ExtractNonNull(xs)
    ensures ExtractNonNull(xs) == [] <==> DropNulls(xs) == []
  {
    if xs != [] {
      ExtractNonNullDropNulls(xs[1..]);
      var head := if xs[0].JNull? then [] else [xs[0]];
      ExtractNonNullConcat(head, DropNulls(xs[1..]));
      if !xs[0].JNull? {
        assert ([xs[0]] + DropNulls(xs[1..]))[1..] == DropNulls(xs[1..]);
      }
    }
  }

  /** `None` elements of a list contribute nothing, not even a separator. */
  lemma ExtractIgnoresNulls(xs: seq<JValue>)
    ensures ExtractText(JArr(xs)) == ExtractText(JArr(DropNulls(xs)))
  {
    ExtractNonNullDropNulls(xs);
  }

  /** A one-element list flattens to its element. */
  lemma ExtractSingleton(x: JValue)
    requires !x.JNull?
    ensures ExtractText(JArr([x])) == ExtractText(x)
  {
    assert ExtractNonNull([x]) == [ExtractText(x)] by {
      assert [x][1..] == [];
    }
  }

  /**
   * Two lists that each hold a non-null element flatten, once concatenated, to
   * their two texts separated by a blank line, even when a text is empty.
   */
  lemma ExtractListConcat(xs: seq<JValue>, ys: seq<JValue>)
    requires DropNulls(xs) != [] && DropNulls(ys) != []
    ensures ExtractText(JArr(xs + ys)) == ExtractText(JArr(xs)) + "\n\n" + ExtractText(JArr(ys))
  {
    ExtractNonNullConcat(xs, ys);
    ExtractNonNullDropNulls(xs);
    ExtractNonNullDropNulls(ys);
    JoinConcat("\n\n", ExtractNonNull(xs), ExtractNonNull(ys));
  }

  lemma {:induction false} NonEmptyConcat(a: seq<string>, b: seq<string>)
    ensures NonEmpty(a + b) == NonEmpty(a) + NonEmpty(b)
  {
    if a == [] {
      assert a + b == b;
    } else {
      ConsConcat(a, b);
      NonEmptyConcat(a[1..], b);
    }
  }

  lemma {:induction false} ScalarValuesAppend(fs: Fields, k: string, v: JValue)
    ensures ScalarValues(fs + [(k, v)]) == ScalarValues(fs) + (if IsScalar(v) then [ScalarText(v)] else [])
  {
    if fs == [] {
      assert ([] + [(k, v)])[1..] == [];
    } else {
      assert (fs + [(k, v)])[0] == fs[0] && (fs + [(k, v)])[1..] == fs[1..] + [(k, v)];
      ScalarValuesAppend(fs[1..], k, v);
    }
  }

  predicate IsBlockKey(k: string) {
    k == "text" || k == "paragraph" || k == "content" || k == "children"
  }

  lemma TextPartsAppend(fs: Fields, k: string, v: JValue)
    requires !IsBlockKey(k)
    ensures TextParts(fs + [(k, v)]) == TextParts(fs)
  {
    IndexOfAppend(fs, k, v, "text");
    IndexOfAppend(fs, k, v, "paragraph");
    var gs := fs + [(k, v)];
    var i := IndexOf(fs, "text");
    if i >= 0 {
      assert gs[i] == fs[i];
    }
    var j := IndexOf(fs, "paragraph");
    if j >= 0 {
      assert gs[j] == fs[j];
    }
    assert Get(gs, "text") == Get(fs, "text");
    assert Get(gs, "paragraph") == Get(fs, "paragraph");
  }

  lemma ContentPartsAppend(fs: Fields, k: string, v: JValue)
    requires !IsBlockKey(k)
    ensures ContentParts(fs + [(k, v)]) == ContentParts(fs)
  {
    IndexOfAppend(fs, k, v, "content");
    var i := IndexOf(fs, "content");
    if i >= 0 {
      assert (fs + [(k, v)])[i] == fs[i];
    }
  }

  lemma ChildPartsAppend(fs: Fields, k: string, v: JValue)
    requires !IsBlockKey(k)
    ensures ChildParts(fs + [(k, v)]) == ChildParts(fs)
  {
    IndexOfAppend(fs, k, v, "children");
    var i := IndexOf(fs, "children");
    if i >= 0 {
      assert (fs + [(k, v)])[i] == fs[i];
    }
  }

  /**
   * Appending a scalar entry under a key that is not one of `text`,
   * `paragraph`, `content` and `children` changes nothing when the object
   * already yields a part, and otherwise adds that value as the last line.
   */
  lemma ExtractObjectExtraScalar(fs: Fields, k: string, v: JValue)
    requires !IsBlockKey(k) && IsScalar(v)
    ensures StructuredParts(fs) != [] ==> ExtractText(JObj(fs + [(k, v)])) == ExtractText(JObj(fs))
    ensures StructuredParts(fs) == [] ==>
      ExtractText(JObj(fs + [(k, v)])) == Join("\n", NonEmpty(ScalarValues(fs) + [ScalarText(v)]))
  {
    var gs := fs + [(k, v)];
    TextPartsAppend(fs, k, v);
    ContentPartsAppend(fs, k, v);
    ChildPartsAppend(fs, k, v);
    assert StructuredParts(gs) == StructuredParts(fs);
    ScalarValuesAppend(fs, k, v);
    ExtractObjectUnfold(fs);
    ExtractObjectUnfold(gs);
  }

  lemma AbsentKey(fs: Fields, k: string)
    requires forall i :: 0 <= i < |fs| ==> fs[i].0 != k
    ensures IndexOf(fs, k) < 0 && Lookup(fs, k) == None
  {
  }

  /** Without `text`, `paragraph`, `content` and `children` nothing structured is collected. */
  lemma NoStructuredParts(fs: Fields)
    requires Lookup(fs, "text") == None && Lookup(fs, "paragraph") == None
    requires IndexOf(fs, "content") < 0 && IndexOf(fs, "children") < 0
    ensures StructuredParts(fs) == []
  {
    assert TextParts(fs) == [];
    assert ContentParts(fs) == [];
    assert ChildParts(fs) == [];
  }

  lemma ExtractObjectUnfold(fs: Fields)
    ensures ExtractText(JObj(fs)) == Join("\n", NonEmpty(ObjectParts(fs)))
  {
  }

  /** An object with none of the recognised keys flattens to its non-empty scalar values, one per line. */
  lemma ExtractPlainObject(fs: Fields)
    requires forall i :: 0 <= i < |fs| ==> !IsBlockKey(fs[i].0)
    ensures ExtractText(JObj(fs)) == Join("\n", NonEmpty(ScalarValues(fs)))
  {
    AbsentKey(fs, "text");
    AbsentKey(fs, "paragraph");
    AbsentKey(fs, "content");
    AbsentKey(fs, "children");
    NoStructuredParts(fs);
    ExtractObjectUnfold(fs);
  }

  lemma OnlyTextParts(fs: Fields)
    requires IndexOf(fs, "content") < 0 && IndexOf(fs, "children") < 0
    ensures StructuredParts(fs) == TextParts(fs)
  {
    assert ContentParts(fs) == [];
    assert ChildParts(fs) == [];
  }

  /**
   * `text` and `paragraph` are both collected, `text` first, each on its own
   * line; an object holding only those two entries flattens to both.
   */
  lemma ExtractTextAndParagraph(a: string, b: string)
    requires CleanStr(a) != [] && CleanStr(b) != []
    ensures ExtractText(JObj([("text", JStr(a)), ("paragraph", JStr(b))])) == CleanStr(a) + "\n" + CleanStr(b)
  {
    var fs := [("text", JStr(a)), ("paragraph", JStr(b))];
    assert fs[1..] == [("paragraph", JStr(b))];
    assert fs[0].0 != "paragraph" && Lookup(fs[1..], "paragraph") == Some(JStr(b));
    AbsentKey(fs, "content");
    AbsentKey(fs, "children");
    OnlyTextParts(fs);
    assert Get(fs, "text") == JStr(a) && Get(fs, "paragraph") == JStr(b);
    var parts := [CleanStr(a), CleanStr(b)];
    assert TextParts(fs) == parts;
    assert NonEmpty(parts) == parts by {
      assert parts[1..] == [CleanStr(b)];
      assert [CleanStr(b)][1..] == [];
      assert NonEmpty([CleanStr(b)]) == [CleanStr(b)] + NonEmpty([]);
    }
    ExtractObjectUnfold(fs);
    assert Join("\n", parts) == CleanStr(a) + "\n" + CleanStr(b) by {
      assert parts[1..] == [CleanStr(b)];
    }
  }

  lemma ScalarTextSanitized(v: JValue)
    requires IsScalar(v)
    ensures IsScalar(SanitizeStrings(v)) && ScalarText(SanitizeStrings(v)) == ScalarText(v)
  {
    if v.JStr? {
      CleanStrIdempotent(v.s);
    }
  }

  lemma {:induction false} ScalarValuesSanitized(fs: Fields)
    ensures ScalarValues(SanitizeStrings(JObj(fs)).fields) == ScalarValues(fs)
  {
    var gs := SanitizeStrings(JObj(fs)).fields;
    if fs != [] {
      assert gs[1..] == SanitizeStrings(JObj(fs[1..])).fields;
      ScalarValuesSanitized(fs[1..]);
      assert gs[0].1 == SanitizeStrings(fs[0].1);
      if IsScalar(fs[0].1) {
        ScalarTextSanitized(fs[0].1);
      } else {
        assert !IsScalar(gs[0].1) by {
          match fs[0].1
          case JNull =>
          case JArr(_) =>
          case JObj(_) =>
        }
      }
    }
  }

  /**
   * Sanitising first makes no difference to the flattened text: every leaf is
   * cleaned by the flattener anyway.
   */
  lemma {:induction false} ExtractSanitized(v: JValue)
    ensures ExtractText(SanitizeStrings(v)) == ExtractText(v)
    decreases v, 3
  {
    match v
    case JStr(s) =>
      CleanStrIdempotent(s);
    case JArr(xs) =>
      ExtractNonNullSanitized(xs);
    case JObj(fs) =>
      ObjectPartsSanitized(fs);
    case _ =>
  }

  lemma {:induction false} ExtractNonNullSanitized(xs: seq<JValue>)
    ensures ExtractNonNull(SanitizeStrings(JArr(xs)).items) == ExtractNonNull(xs)
    decreases xs, 2
  {
    var ys := SanitizeStrings(JArr(xs)).items;
    if xs != [] {
      assert ys[1..] == SanitizeStrings(JArr(xs[1..])).items;
      ExtractNonNullSanitized(xs[1..]);
      ExtractSanitized(xs[0]);
    }
  }

  lemma {:induction false} ExtractEachSanitized(xs: seq<JValue>)
    ensures ExtractEach(SanitizeStrings(JArr(xs)).items) == ExtractEach(xs)
    decreases xs, 2
  {
    var ys := SanitizeStrings(JArr(xs)).items;
    if xs != [] {
      assert ys[1..] == SanitizeStrings(JArr(xs[1..])).items;
      ExtractEachSanitized(xs[1..]);
      ExtractSanitized(xs[0]);
    }
  }

  lemma SanitizedEntry(fs: Fields, k: string)
    ensures var gs := SanitizeStrings(JObj(fs)).fields;
      IndexOf(gs, k) == IndexOf(fs, k) &&
      (IndexOf(fs, k) >= 0 ==> gs[IndexOf(fs, k)].1 == SanitizeStrings(fs[IndexOf(fs, k)].1))
  {
    IndexOfSameKeys(fs, SanitizeStrings(JObj(fs)).fields, k);
  }

  lemma TextPartsSanitized(fs: Fields)
    ensures TextParts(SanitizeStrings(JObj(fs)).fields) == TextParts(fs)
  {
    var gs := SanitizeStrings(JObj(fs)).fields;
    LookupSanitized(fs, "text");
    LookupSanitized(fs, "paragraph");
    var t := Get(fs, "text");
    var p := Get(fs, "paragraph");
    assert Get(gs, "text") == SanitizeStrings(t);
    assert Get(gs, "paragraph") == SanitizeStrings(p);
    if IsScalar(t) {
      ScalarTextSanitized(t);
    }
    if IsScalar(p) {
      ScalarTextSanitized(p);
    }
  }

  lemma {:induction false} ContentPartsSanitized(fs: Fields)
    ensures ContentParts(SanitizeStrings(JObj(fs)).fields) == ContentParts(fs)
    decreases fs, 1
  {
    SanitizedEntry(fs, "content");
    var i := IndexOf(fs, "content");
    if i >= 0 {
      var c := fs[i].1;
      assert c < fs[i];
      match c
      case JArr(ys) => ExtractEachSanitized(ys);
      case JNull =>
      case _ => ExtractSanitized(c);
    }
  }

  lemma {:induction false} ChildPartsSanitized(fs: Fields)
    ensures ChildParts(SanitizeStrings(JObj(fs)).fields) == ChildParts(fs)
    decreases fs, 1
  {
    SanitizedEntry(fs, "children");
    var i := IndexOf(fs, "children");
    if i >= 0 {
      var c := fs[i].1;
      assert c < fs[i];
      if c.JArr? {
        ExtractEachSanitized(c.items);
      }
    }
  }

  lemma {:induction false} ObjectPartsSanitized(fs: Fields)
    ensures ObjectParts(SanitizeStrings(JObj(fs)).fields) == ObjectParts(fs)
    decreases fs, 2
  {
    TextPartsSanitized(fs);
    ContentPartsSanitized(fs);
    ChildPartsSanitized(fs);
    ScalarValuesSanitized(fs);
  }
}

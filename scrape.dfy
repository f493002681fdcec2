/**
 * What the scraper reads off one chapter page: `html_to_text_block` walks
 * the descendants of the content element in document order and turns
 * paragraphs, headings, section breaks and image placeholders into text
 * parts; `extract_title` picks the title. The parsed page arrives as the
 * sequence of descendants with the few facts about each that these two
 * functions look at.
 */
module Scrape {
  import opened Wrappers
  import opened PyStr
  import opened Control

  /**
   * One descendant: its tag name (`None` for a text node), its
   * `get_text(" ")`, its `get_text(strip=True)`, its `class` list and its
   * `data-image-id` attribute.
   */
  datatype Node = Node(name: Option<string>, spaced: string, stripped: string,
                       classes: seq<string>, imageId: Option<string>)

  /** `el.get('data-image-id') or 'image'` */
  function ImageId(id: Option<string>): string {
    if id.Some? && id.value != [] then id.value else "image"
  }

  /** The part one descendant contributes, following the `if`/`elif` chain. */
  function Part(n: Node): Option<string> {
    if n.name == Some("p") then
      if n.spaced != [] then Some(Strip(n.spaced)) else None
    else if n.name == Some("h2") || n.name == Some("h3") then
      Some("\n\n" + n.stripped + "\n")
    else if n.name == Some("div") && "section-break" in n.classes then
      Some("\n***\n")
    else if n.name == Some("div") && "image-placeholder" in n.classes then
      Some("\n[IMAGE_PLACEHOLDER:" + ImageId(n.imageId) + "]\n")
    else None
  }

  /** The list `parts` after the walk over `ns`. */
  function Parts(ns: seq<Node>): seq<string> {
    if ns == [] then []
    else
      var p := Part(ns[|ns| - 1]);
      Parts(ns[..|ns| - 1]) + (if p.Some? then [p.value] else [])
  }

  /** `[p for p in parts if str(p).strip() != ""]` */
  function NonBlank(ps: seq<string>): seq<string> {
    if ps == [] then []
    else (if IsBlank(ps[0]) then [] else [ps[0]]) + NonBlank(ps[1..])
  }

  /** The value `html_to_text_block` returns. */
  function TextBlock(ns: seq<Node>): string {
    Strip(Join("\n\n", NonBlank(Parts(ns))))
  }

  /** The body `build_manifest` stores: the text block with control characters removed. */
  function ScrapedBody(ns: seq<Node>): (body: string)
    ensures NoCtrl(body)
    ensures |body| <= |TextBlock(ns)|
  {
    CleanStr(TextBlock(ns))
  }

  lemma {:induction false} PartsSnoc(ns: seq<Node>, i: nat)
    requires i < |ns|
    ensures Parts(ns[..i + 1]) == Parts(ns[..i]) + (if Part(ns[i]).Some? then [Part(ns[i]).value] else [])
  {
    assert ns[..i + 1][..i] == ns[..i];
  }

  /** `html_to_text_block` on the descendants `ns` of the content element. */
  method HtmlToTextBlock(ns: seq<Node>) returns (body: string)
    ensures body == TextBlock(ns)
  {
    var parts: seq<string> := [];
    var i := 0;
    while i < |ns|
      invariant 0 <= i <= |ns|
      invariant parts == Parts(ns[..i])
    {
      PartsSnoc(ns, i);
      var el := ns[i];
      if el.name == Some("p") {
        var txt := el.spaced;
        if txt != [] {
          parts := parts + [Strip(txt)];
        }
      } else if el.name == Some("h2") || el.name == Some("h3") {
        parts := parts + ["\n\n" + el.stripped + "\n"];
      } else if el.name == Some("div") && "section-break" in el.classes {
        parts := parts + ["\n***\n"];
      } else if el.name == Some("div") && "image-placeholder" in el.classes {
        parts := parts + ["\n[IMAGE_PLACEHOLDER:" + ImageId(el.imageId) + "]\n"];
      }
      i := i + 1;
    }
    assert ns[..i] == ns;
    body := Strip(Join("\n\n", NonBlank(parts)));
  }

  /** `extract_title`: the `<h1>` text, else the stripped `<title>` string, else a fixed title. */
  function ExtractTitle(h1: Option<string>, titleString: Option<string>): (t: string)
    ensures h1.Some? && h1.value != [] ==> t == h1.value
    ensures t == [] <==>
      (h1.None? || h1.value == []) && titleString.Some? && titleString.value != [] &&
      IsBlank(titleString.value)
    ensures (h1.None? || h1.value == []) && titleString.Some? && titleString.value != [] ==>
      t == Strip(titleString.value)
    ensures (h1.None? || h1.value == []) && (titleString.None? || titleString.value == []) ==>
      t == "Untitled Chapter"
  {
    if h1.Some? && h1.value != [] then h1.value
    else if titleString.Some? && titleString.value != [] then Strip(titleString.value)
    else "Untitled Chapter"
  }

  // Properties of the text block

  /** A part survives the filter exactly when it is not blank, and nothing else gets in. */
  lemma {:induction false} NonBlankExact(ps: seq<string>)
    ensures forall p :: p in NonBlank(ps) <==> p in ps && !IsBlank(p)
  {
    if ps != [] {
      NonBlankExact(ps[1..]);
      assert ps == [ps[0]] + ps[1..];
    }
  }

  lemma {:induction false} NonBlankEmpty(ps: seq<string>)
    ensures NonBlank(ps) == [] <==> forall i :: 0 <= i < |ps| ==> IsBlank(ps[i])
  {
    if ps != [] {
      var rest := ps[1..];
      NonBlankEmpty(rest);
      if IsBlank(ps[0]) {
        assert NonBlank(ps) == NonBlank(rest);
        assert forall i :: 1 <= i < |ps| ==> rest[i - 1] == ps[i];
      } else {
        assert NonBlank(ps)[0] == ps[0];
      }
    }
  }

  /** A join whose first part is not blank is not blank. */
  lemma JoinNotBlank(sep: string, ps: seq<string>)
    requires ps != [] && !IsBlank(ps[0])
    ensures !IsBlank(Join(sep, ps))
  {
    BlankIffAllSpace(ps[0]);
    var j :| 0 <= j < |ps[0]| && !IsSpace(ps[0][j]);
    var s := Join(sep, ps);
    assert s[j] == ps[0][j];
    BlankIffAllSpace(s);
  }

  /** The text block is empty exactly when every part the walk produced is blank. */
  lemma TextBlockEmpty(ns: seq<Node>)
    ensures var ps := Parts(ns);
      TextBlock(ns) == [] <==> forall i :: 0 <= i < |ps| ==> IsBlank(ps[i])
  {
    var ps := Parts(ns);
    var kept := NonBlank(ps);
    NonBlankEmpty(ps);
    if kept != [] {
      NonBlankExact(ps);
      assert kept[0] in kept;
      JoinNotBlank("\n\n", kept);
    }
  }

  /** The text block has no whitespace at either end. */
  lemma TextBlockTrimmed(ns: seq<Node>)
    ensures var t := TextBlock(ns); t != [] ==> !IsSpace(t[0]) && !IsSpace(t[|t| - 1])
  {
    var joined := Join("\n\n", NonBlank(Parts(ns)));
    StripTrimmed(joined);
    assert TextBlock(ns) == Strip(joined);
  }

  /** A section break or an image placeholder always gives a part that is kept. */
  lemma MarkerKept(n: Node)
    requires n.name == Some("div") && ("section-break" in n.classes || "image-placeholder" in n.classes)
    ensures Part(n).Some? && !IsBlank(Part(n).value)
  {
    var p := Part(n).value;
    assert !IsSpace(p[1]);
    BlankIffAllSpace(p);
  }

  /** A lone paragraph whose text is already stripped is the whole text block. */
  lemma ParagraphBlock(s: string)
    requires s != [] && Strip(s) == s
    ensures TextBlock([Node(Some("p"), s, "", [], None)]) == s
  {
    var ns: seq<Node> := [Node(Some("p"), s, "", [], None)];
    var ps: seq<string> := [s];
    assert ns[..0] == [] && ps[1..] == [];
    assert Parts(ns) == ps;
    assert NonBlank(ps) == ps;
  }

  /**
   * Whitespace is stripped before control characters are removed, so a
   * paragraph such as `"\x01 a"` gives the body `" a"`, which starts with a
   * space.
   */
  lemma BodyMayStartWithSpace(c: char, t: string)
    requires IsCtrl(c) && !IsSpace(c)
    requires t != [] && NoCtrl(t) && !IsSpace(t[|t| - 1])
    ensures ScrapedBody([Node(Some("p"), [c, ' '] + t, "", [], None)]) == [' '] + t
  {
    var s := [c, ' '] + t;
    assert CleanStr(s) == [' '] + t by {
      CleanStrConcat([c, ' '], t);
      CleanStrFixpoint(t);
      assert [c, ' '][1..] == [' '];
    }
    StripOfNoSpace(s);
    ParagraphBlock(s);
  }
}

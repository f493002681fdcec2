/**
 * `slugify`: lower-case the text, turn every maximal run of characters
 * outside [a-z0-9] into one "-", and trim "-" from both ends. The chapter
 * normaliser applies the same two steps to a chapter's title.
 */
module Slug {
  import opened PyStr

  predicate IsSlugChar(c: char) {
    ('a' <= c <= 'z') || ('0' <= c <= '9')
  }

  /** Only characters of [a-z0-9-]. */
  predicate SlugAlphabet(s: string) {
    forall i :: 0 <= i < |s| ==> IsSlugChar(s[i]) || s[i] == '-'
  }

  /** No two "-" in a row. */
  predicate NoDoubleDash(s: string) {
    forall i, j :: 0 <= i < |s| && 0 <= j < |s| && j == i + 1 ==> !(s[i] == '-' && s[j] == '-')
  }

  /** The [a-z0-9] characters of `s`, in order. */
  function SlugChars(s: string): string {
    if s == [] then []
    else (if IsSlugChar(s[0]) then [s[0]] else []) + SlugChars(s[1..])
  }

  /** Drops the leading characters outside [a-z0-9]. */
  function DropRun(s: string): (r: string)
    ensures |r| <= |s|
    ensures r != [] ==> IsSlugChar(r[0])
    ensures SlugChars(r) == SlugChars(s)
  {
    if s != [] && !IsSlugChar(s[0]) then DropRun(s[1..]) else s
  }

  /** `re.sub(r"[^a-z0-9]+", "-", s)` */
  function Collapse(s: string): (r: string)
    ensures r == [] <==> s == []
    ensures r != [] ==> (r[0] == '-' <==> !IsSlugChar(s[0]))
    ensures SlugAlphabet(r) && NoDoubleDash(r)
    ensures SlugChars(r) == SlugChars(s)
    decreases |s|
  {
    if s == [] then []
    else if IsSlugChar(s[0]) then
      var rest := Collapse(s[1..]);
      assert SlugChars([s[0]] + rest) == [s[0]] + SlugChars(rest) by {
        assert ([s[0]] + rest)[1..] == rest;
      }
      [s[0]] + rest
    else
      var rest := Collapse(DropRun(s[1..]));
      assert SlugChars("-" + rest) == SlugChars(rest) by {
        assert ("-" + rest)[1..] == rest;
      }
      "-" + rest
  }

  /** `slugify(text)` */
  function Slugify(text: string): string {
    StripChar(Collapse(Lower(text)), '-')
  }

  lemma {:induction false} StripDashIsSlice(s: string) returns (i: nat, j: nat)
    ensures i <= j <= |s| && StripChar(s, '-') == s[i..j]
    ensures forall k :: 0 <= k < i ==> s[k] == '-'
    ensures forall k :: j <= k < |s| ==> s[k] == '-'
    decreases |s|
  {
    if s == [] {
      i, j := 0, 0;
    } else if s[0] == '-' {
      var t := s[1..];
      var i', j' := StripDashIsSlice(t);
      i, j := i' + 1, j' + 1;
      assert t[i'..j'] == s[i..j];
      assert forall k :: 0 < k < i ==> s[k] == t[k - 1];
      assert forall k :: j <= k < |s| ==> s[k] == t[k - 1];
    } else if s[|s| - 1] == '-' {
      var t := s[..|s| - 1];
      i, j := StripDashIsSlice(t);
      assert t[i..j] == s[i..j];
      assert forall k :: j <= k < |t| ==> s[k] == t[k];
    } else {
      i, j := 0, |s|;
    }
  }

  lemma {:induction false} SlugCharsConcat(a: string, b: string)
    ensures SlugChars(a + b) == SlugChars(a) + SlugChars(b)
  {
    if a == [] {
      assert a + b == b;
    } else {
      var t := a[1..];
      var h := if IsSlugChar(a[0]) then [a[0]] else [];
      SlugCharsConcat(t, b);
      calc {
        SlugChars(a + b);
        { ConsConcat(a, b); }
        h + SlugChars(t + b);
        h + (SlugChars(t) + SlugChars(b));
        (h + SlugChars(t)) + SlugChars(b);
        SlugChars(a) + SlugChars(b);
      }
    }
  }

  lemma {:induction false} SlugCharsOfDashes(s: string)
    requires forall k :: 0 <= k < |s| ==> s[k] == '-'
    ensures SlugChars(s) == []
  {
    if s != [] {
      SlugCharsOfDashes(s[1..]);
    }
  }

  /** Trimming "-" keeps every [a-z0-9] character. */
  lemma StripDashKeepsSlugChars(s: string)
    ensures SlugChars(StripChar(s, '-')) == SlugChars(s)
  {
    var i, j := StripDashIsSlice(s);
    assert s == s[..i] + s[i..j] + s[j..];
    SlugCharsConcat(s[..i] + s[i..j], s[j..]);
    SlugCharsConcat(s[..i], s[i..j]);
    SlugCharsOfDashes(s[..i]);
    SlugCharsOfDashes(s[j..]);
  }

  /** Every character of a slug is in [a-z0-9-]. */
  lemma SlugifyAlphabet(text: string)
    ensures SlugAlphabet(Slugify(text))
  {
    var c := Collapse(Lower(text));
    var i, j := StripDashIsSlice(c);
    assert forall k :: i <= k < j ==> c[i..j][k - i] == c[k];
  }

  /** A slug never starts or ends with "-" and never holds "--". */
  lemma SlugifyDashes(text: string)
    ensures var r := Slugify(text);
      (r != [] ==> r[0] != '-' && r[|r| - 1] != '-') && NoDoubleDash(r)
  {
    var c := Collapse(Lower(text));
    var i, j := StripDashIsSlice(c);
    assert forall k :: i <= k < j ==> c[i..j][k - i] == c[k];
  }

  /** The ASCII letters and digits of the lower-cased text survive, in order. */
  lemma SlugifyKeepsSlugChars(text: string)
    ensures SlugChars(Slugify(text)) == SlugChars(Lower(text))
  {
    StripDashKeepsSlugChars(Collapse(Lower(text)));
  }

  lemma {:induction false} LowerOfSlugAlphabet(s: string)
    requires SlugAlphabet(s)
    ensures Lower(s) == s
  {
    if s != [] {
      assert SlugAlphabet(s[1..]) by {
        assert forall k :: 0 <= k < |s| - 1 ==> s[1..][k] == s[k + 1];
      }
      LowerOfSlugAlphabet(s[1..]);
    }
  }

  lemma {:induction false} CollapseFixpoint(s: string)
    requires SlugAlphabet(s) && NoDoubleDash(s)
    ensures Collapse(s) == s
    decreases |s|
  {
    if s != [] {
      var t := s[1..];
      assert SlugAlphabet(t) && NoDoubleDash(t) by {
        assert forall k :: 0 <= k < |t| ==> t[k] == s[k + 1];
      }
      if !IsSlugChar(s[0]) {
        assert DropRun(t) == t by {
          if t != [] {
            assert t[0] == s[1];
          }
        }
      }
      CollapseFixpoint(t);
    }
  }

  /** `slugify(slugify(t)) == slugify(t)` */
  lemma SlugifyIdempotent(text: string)
    ensures Slugify(Slugify(text)) == Slugify(text)
  {
    var r := Slugify(text);
    SlugifyAlphabet(text);
    SlugifyDashes(text);
    LowerOfSlugAlphabet(r);
    CollapseFixpoint(r);
  }
}

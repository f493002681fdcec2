/**
 * The control-character strip shared by both scripts: the characters
 * U+0000-U+0008, U+000B, U+000C and U+000E-U+001F are removed; tab, line
 * feed and carriage return (and everything else) are kept.
 */
module Control {
  import opened PyStr
  predicate IsCtrl(c: char) {
    c <= '\U{8}' || c == '\U{B}' || c == '\U{C}' || ('\U{E}' <= c <= '\U{1F}')
  }

  /** No character of `s` is one that the strip removes. */
  predicate NoCtrl(s: string) {
    forall i :: 0 <= i < |s| ==> !IsCtrl(s[i])
  }

  /** `clean_str` on a string: the regular-expression substitution by "". */
  function CleanStr(s: string): (r: string)
    ensures NoCtrl(r)
    ensures |r| <= |s|
  {
    if s == [] then []
    else (if IsCtrl(s[0]) then [] else [s[0]]) + CleanStr(s[1..])
  }

  /** `a` is `b` with some characters left out, the rest in `b`'s order. */
  predicate IsSubsequence(a: string, b: string)
    decreases |b|
  {
    a == [] ||
    (b != [] && ((a[0] == b[0] && IsSubsequence(a[1..], b[1..])) || IsSubsequence(a, b[1..])))
  }

  lemma {:induction false} CleanStrConcat(a: string, b: string)
    ensures CleanStr(a + b) == CleanStr(a) + CleanStr(b)
  {
    if a == [] {
      assert a + b == b;
    } else {
      var t := a[1..];
      var h := if IsCtrl(a[0]) then [] else [a[0]];
      CleanStrConcat(t, b);
      calc {
        CleanStr(a + b);
        { ConsConcat(a, b); }
        h + CleanStr(t + b);
        h + (CleanStr(t) + CleanStr(b));
        (h + CleanStr(t)) + CleanStr(b);
        CleanStr(a) + CleanStr(b);
      }
    }
  }

  /** A string is left as it is exactly when it holds no removed character. */
  lemma {:induction false} CleanStrFixpoint(s: string)
    ensures CleanStr(s) == s <==> NoCtrl(s)
  {
    if s != [] {
      CleanStrFixpoint(s[1..]);
      if IsCtrl(s[0]) {
        assert |CleanStr(s)| < |s|;
      } else if CleanStr(s) == s {
        assert CleanStr(s[1..]) == s[1..];
      }
    }
  }

  lemma CleanStrIdempotent(s: string)
    ensures CleanStr(CleanStr(s)) == CleanStr(s)
  {
    CleanStrFixpoint(CleanStr(s));
  }

  /** Each removed character vanishes; every other keeps its number of occurrences. */
  lemma {:induction false} CleanStrCounts(s: string, c: char)
    ensures multiset(CleanStr(s))[c] == if IsCtrl(c) then 0 else multiset(s)[c]
  {
    if s != [] {
      var t := s[1..];
      var h := if IsCtrl(s[0]) then [] else [s[0]];
      CleanStrCounts(t, c);
      assert multiset(s)[c] == multiset([s[0]])[c] + multiset(t)[c] by {
        assert s == [s[0]] + t;
      }
      assert multiset(CleanStr(s))[c] == multiset(h)[c] + multiset(CleanStr(t))[c] by {
        assert CleanStr(s) == h + CleanStr(t);
      }
    }
  }

  /** The characters that remain keep their original order. */
  lemma {:induction false} CleanStrSubsequence(s: string)
    ensures IsSubsequence(CleanStr(s), s)
  {
    if s != [] {
      CleanStrSubsequence(s[1..]);
      var r := CleanStr(s);
      if !IsCtrl(s[0]) {
        assert r[0] == s[0] && r[1..] == CleanStr(s[1..]);
      } else {
        assert r == CleanStr(s[1..]);
      }
    }
  }

  lemma {:induction false} NoCtrlConcat(a: string, b: string)
    requires NoCtrl(a) && NoCtrl(b)
    ensures NoCtrl(a + b)
  {
    assert forall i :: |a| <= i < |a + b| ==> (a + b)[i] == b[i - |a|];
  }

  /** Joining clean parts with a clean separator gives a clean string. */
  lemma {:induction false} JoinNoCtrl(sep: string, parts: seq<string>)
    requires NoCtrl(sep)
    requires forall i :: 0 <= i < |parts| ==> NoCtrl(parts[i])
    ensures NoCtrl(Join(sep, parts))
  {
    if |parts| > 1 {
      JoinNoCtrl(sep, parts[1..]);
      NoCtrlConcat(parts[0], sep);
      NoCtrlConcat(parts[0] + sep, Join(sep, parts[1..]));
    }
  }
}

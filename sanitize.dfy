/**
 * `sanitize_strings`: rebuild the tree with every string value passed
 * through `clean_str`. Object keys are carried over unchanged, as the dict
 * comprehension does.
 */
module Sanitize {
  import opened Json
  import opened Control
  import opened Wrappers

  function SanitizeStrings(v: JValue): JValue
  {
    match v
    case JStr(s) => JStr(CleanStr(s))
    case JArr(xs) => JArr(seq(|xs|, i requires 0 <= i < |xs| => SanitizeStrings(xs[i])))
    case JObj(fs) => JObj(seq(|fs|, i requires 0 <= i < |fs| => (fs[i].0, SanitizeStrings(fs[i].1))))
    case _ => v
  }

  /** Every string value in the tree is free of removed control characters. */
  predicate AllClean(v: JValue) {
    match v
    case JStr(s) => NoCtrl(s)
    case JArr(xs) => forall i :: 0 <= i < |xs| ==> AllClean(xs[i])
    case JObj(fs) => forall i :: 0 <= i < |fs| ==> AllClean(fs[i].1)
    case _ => true
  }

  /**
   * `a` and `b` have the same shape: the same keys in the same order, the same
   * list lengths, the same non-string scalars; strings may differ.
   */
  predicate SameShape(a: JValue, b: JValue) {
    match a
    case JStr(_) => b.JStr?
    case JArr(xs) =>
      b.JArr? && |xs| == |b.items| &&
      forall i :: 0 <= i < |xs| ==> SameShape(xs[i], b.items[i])
    case JObj(fs) =>
      b.JObj? && |fs| == |b.fields| &&
      forall i :: 0 <= i < |fs| ==> fs[i].0 == b.fields[i].0 && SameShape(fs[i].1, b.fields[i].1)
    case _ => a == b
  }

  lemma {:induction false} SanitizeKeepsShape(v: JValue)
    ensures SameShape(v, SanitizeStrings(v))
  {
    match v
    case JArr(xs) =>
      forall i | 0 <= i < |xs| {
        SanitizeKeepsShape(xs[i]);
      }
    case JObj(fs) =>
      forall i | 0 <= i < |fs| {
        SanitizeKeepsShape(fs[i].1);
      }
    case _ =>
  }

  lemma {:induction false} SanitizeCleans(v: JValue)
    ensures AllClean(SanitizeStrings(v))
  {
    match v
    case JArr(xs) =>
      forall i | 0 <= i < |xs| {
        SanitizeCleans(xs[i]);
      }
    case JObj(fs) =>
      forall i | 0 <= i < |fs| {
        SanitizeCleans(fs[i].1);
      }
    case _ =>
  }

  /** The tree is left as it is exactly when it is already clean. */
  lemma {:induction false} SanitizeFixpoint(v: JValue)
    ensures SanitizeStrings(v) == v <==> AllClean(v)
  {
    match v
    case JStr(s) =>
      CleanStrFixpoint(s);
    case JArr(xs) =>
      var ys := seq(|xs|, i requires 0 <= i < |xs| => SanitizeStrings(xs[i]));
      forall i | 0 <= i < |xs| {
        SanitizeFixpoint(xs[i]);
      }
      if AllClean(v) {
        assert ys == xs;
      }
    case JObj(fs) =>
      var gs := seq(|fs|, i requires 0 <= i < |fs| => (fs[i].0, SanitizeStrings(fs[i].1)));
      forall i | 0 <= i < |fs| {
        SanitizeFixpoint(fs[i].1);
      }
      if AllClean(v) {
        assert gs == fs;
      }
    case _ =>
  }

  lemma SanitizeIdempotent(v: JValue)
    ensures SanitizeStrings(SanitizeStrings(v)) == SanitizeStrings(v)
  {
    SanitizeCleans(v);
    SanitizeFixpoint(SanitizeStrings(v));
  }

  /** Looking a key up after sanitising gives the sanitised value of the lookup. */
  lemma {:induction false} LookupSanitized(fs: Fields, k: string)
    ensures var gs := SanitizeStrings(JObj(fs)).fields;
      Lookup(gs, k) == match Lookup(fs, k) case Some(v) => Some(SanitizeStrings(v)) case None => None
  {
    var gs := SanitizeStrings(JObj(fs)).fields;
    if fs != [] {
      LookupSanitized(fs[1..], k);
      assert gs[1..] == SanitizeStrings(JObj(fs[1..])).fields;
      assert Keys(gs) == [gs[0].0] + Keys(gs[1..]);
      assert Keys(fs) == [fs[0].0] + Keys(fs[1..]);
    }
  }

  /** `d[k] = v` with a clean `v` keeps a clean object clean. */
  lemma {:induction false} AssignClean(fs: Fields, k: string, v: JValue)
    requires AllClean(JObj(fs)) && AllClean(v)
    ensures AllClean(JObj(Assign(fs, k, v)))
  {
    if fs != [] && fs[0].0 != k {
      assert AllClean(JObj(fs[1..])) by {
        assert forall i :: 0 <= i < |fs| - 1 ==> fs[1..][i] == fs[i + 1];
      }
      AssignClean(fs[1..], k, v);
      var r := Assign(fs[1..], k, v);
      assert forall i :: 1 <= i < |r| + 1 ==> ([fs[0]] + r)[i] == r[i - 1];
    } else if fs != [] {
      assert forall i :: 1 <= i < |fs| ==> ([(k, v)] + fs[1..])[i] == fs[i];
    }
  }

  /** `d.pop(k, None)` keeps a clean object clean. */
  lemma {:induction false} RemoveClean(fs: Fields, k: string)
    requires AllClean(JObj(fs))
    ensures AllClean(JObj(Remove(fs, k)))
  {
    if fs != [] {
      assert AllClean(JObj(fs[1..])) by {
        assert forall i :: 0 <= i < |fs| - 1 ==> fs[1..][i] == fs[i + 1];
      }
      RemoveClean(fs[1..], k);
      var r := Remove(fs[1..], k);
      assert forall i :: 1 <= i < |r| + 1 ==> ([fs[0]] + r)[i] == r[i - 1];
    }
  }
}

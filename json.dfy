/**
 * The parsed JSON value tree the repair pass works on, with the Python
 * operations the scripts apply to it: truthiness, `dict` lookup, item
 * assignment and `pop`, and `str()`. An object is its ordered list of
 * entries; `json.load` yields objects whose keys are distinct, and on such
 * objects `Lookup`, `Assign` and `Remove` are exactly `dict.get`,
 * `d[k] = v` and `d.pop(k, None)`. Floating-point numbers are not modelled.
 */
module Json {
  import opened Wrappers
  import opened PyStr

  datatype JValue =
    | JNull
    | JBool(b: bool)
    | JInt(i: int)
    | JStr(s: string)
    | JArr(items: seq<JValue>)
    | JObj(fields: seq<(string, JValue)>)

  type Fields = seq<(string, JValue)>

  /** Python's `bool(v)`. */
  predicate Truthy(v: JValue) {
    match v
    case JNull => false
    case JBool(b) => b
    case JInt(i) => i != 0
    case JStr(s) => s != []
    case JArr(xs) => xs != []
    case JObj(fs) => fs != []
  }

  /** `isinstance(v, (str, int, float, bool))` */
  predicate IsScalar(v: JValue) {
    v.JBool? || v.JInt? || v.JStr?
  }

  function Keys(fs: Fields): (ks: seq<string>)
    ensures |ks| == |fs| && forall i :: 0 <= i < |fs| ==> ks[i] == fs[i].0
  {
    if fs == [] then [] else [fs[0].0] + Keys(fs[1..])
  }

  /** No key occurs twice, as in a Python dictionary. */
  predicate DistinctKeys(fs: Fields) {
    forall i, j :: 0 <= i < j < |fs| ==> fs[i].0 != fs[j].0
  }

  /** `d.get(k)`, with `None` for a missing key. */
  function Lookup(fs: Fields, k: string): Option<JValue> {
    if fs == [] then None
    else if fs[0].0 == k then Some(fs[0].1)
    else Lookup(fs[1..], k)
  }

  /** `k in d` */
  predicate Has(fs: Fields, k: string) {
    Lookup(fs, k).Some?
  }

  /** A key is present exactly when it is one of the keys. */
  lemma {:induction false} HasIffInKeys(fs: Fields, k: string)
    ensures Has(fs, k) <==> k in Keys(fs)
  {
    if fs != [] {
      HasIffInKeys(fs[1..], k);
      assert Keys(fs) == [fs[0].0] + Keys(fs[1..]);
    }
  }

  /** The entry at `i` is the first one under `k`, so the lookup finds it. */
  lemma {:induction false} LookupAt(fs: Fields, k: string, i: nat)
    requires i < |fs| && fs[i].0 == k
    requires forall j :: 0 <= j < i ==> fs[j].0 != k
    ensures Lookup(fs, k) == Some(fs[i].1)
  {
    if i > 0 {
      LookupAt(fs[1..], k, i - 1);
    }
  }

  /** No entry is under `k`. */
  lemma {:induction false} LookupNone(fs: Fields, k: string)
    requires forall j :: 0 <= j < |fs| ==> fs[j].0 != k
    ensures !Has(fs, k)
  {
    if fs != [] {
      LookupNone(fs[1..], k);
    }
  }

  /** `d.get(k)` as a value: a missing key reads as `None`. */
  function Get(fs: Fields, k: string): JValue {
    Lookup(fs, k).GetOr(JNull)
  }

  /** The position of the entry for `k`, or -1. */
  function IndexOf(fs: Fields, k: string): (i: int)
    ensures -1 <= i < |fs|
    ensures i >= 0 ==> fs[i].0 == k && Lookup(fs, k) == Some(fs[i].1)
    ensures i < 0 ==> Lookup(fs, k) == None
  {
    if fs == [] then -1
    else if fs[0].0 == k then 0
    else
      var j := IndexOf(fs[1..], k);
      if j < 0 then -1 else j + 1
  }

  lemma {:induction false} IndexOfSameKeys(fs: Fields, gs: Fields, k: string)
    requires |fs| == |gs| && forall i :: 0 <= i < |fs| ==> fs[i].0 == gs[i].0
    ensures IndexOf(fs, k) == IndexOf(gs, k)
  {
    if fs != [] {
      IndexOfSameKeys(fs[1..], gs[1..], k);
    }
  }

  /** An entry appended under a new key leaves every other lookup as it was. */
  lemma {:induction false} IndexOfAppend(fs: Fields, k: string, v: JValue, key: string)
    requires key != k
    ensures IndexOf(fs + [(k, v)], key) == IndexOf(fs, key)
  {
    if fs == [] {
      assert IndexOf([(k, v)][1..], key) == -1;
    } else {
      assert (fs + [(k, v)])[1..] == fs[1..] + [(k, v)];
      IndexOfAppend(fs[1..], k, v, key);
    }
  }

  /** `d[k] = v`: an existing entry keeps its place, a new one goes last. */
  function Assign(fs: Fields, k: string, v: JValue): Fields {
    if fs == [] then [(k, v)]
    else if fs[0].0 == k then [(k, v)] + fs[1..]
    else [fs[0]] + Assign(fs[1..], k, v)
  }

  /** An existing entry keeps its place; a new one goes last. */
  lemma {:induction false} AssignKeys(fs: Fields, k: string, v: JValue)
    ensures Keys(Assign(fs, k, v)) == if Has(fs, k) then Keys(fs) else Keys(fs) + [k]
  {
    if fs != [] {
      AssignKeys(fs[1..], k, v);
      assert Keys(fs) == [fs[0].0] + Keys(fs[1..]);
      if fs[0].0 != k {
        var rest := Assign(fs[1..], k, v);
        assert Keys([fs[0]] + rest) == [fs[0].0] + Keys(rest);
      }
    }
  }

  /** `d.pop(k, None)` */
  function Remove(fs: Fields, k: string): (r: Fields)
    ensures |r| <= |fs|
  {
    if fs == [] then []
    else if fs[0].0 == k then Remove(fs[1..], k)
    else [fs[0]] + Remove(fs[1..], k)
  }

  /** After `d[k] = v`, `k` reads as `v` and every other key as before. */
  lemma {:induction false} AssignLookup(fs: Fields, k: string, v: JValue, key: string)
    ensures Lookup(Assign(fs, k, v), key) == if key == k then Some(v) else Lookup(fs, key)
  {
    if fs != [] && fs[0].0 != k {
      AssignLookup(fs[1..], k, v, key);
      assert ([fs[0]] + Assign(fs[1..], k, v))[1..] == Assign(fs[1..], k, v);
    }
  }

  /** After `d.pop(k, None)`, `k` is missing and every other key reads as before. */
  lemma {:induction false} RemoveLookup(fs: Fields, k: string, key: string)
    ensures Lookup(Remove(fs, k), key) == if key == k then None else Lookup(fs, key)
  {
    if fs != [] {
      RemoveLookup(fs[1..], k, key);
      if fs[0].0 != k {
        assert ([fs[0]] + Remove(fs[1..], k))[1..] == Remove(fs[1..], k);
      }
    }
  }

  /** Writing back the value a key already reads as changes nothing. */
  lemma {:induction false} AssignSame(fs: Fields, k: string, v: JValue)
    requires Lookup(fs, k) == Some(v)
    ensures Assign(fs, k, v) == fs
  {
    if fs[0].0 != k {
      AssignSame(fs[1..], k, v);
    }
  }

  /** Popping a missing key changes nothing. */
  lemma {:induction false} RemoveAbsent(fs: Fields, k: string)
    requires !Has(fs, k)
    ensures Remove(fs, k) == fs
  {
    if fs != [] {
      RemoveAbsent(fs[1..], k);
    }
  }

  /** `d[k] = v` keeps the keys of a dictionary distinct. */
  lemma AssignDistinct(fs: Fields, k: string, v: JValue)
    requires DistinctKeys(fs)
    ensures DistinctKeys(Assign(fs, k, v))
  {
    var r := Assign(fs, k, v);
    AssignKeys(fs, k, v);
    HasIffInKeys(fs, k);
    assert forall i :: 0 <= i < |r| ==> Keys(r)[i] == r[i].0;
  }

  /** `d.pop(k)` keeps the keys of a dictionary distinct. */
  lemma {:induction false} RemoveDistinct(fs: Fields, k: string)
    requires DistinctKeys(fs)
    ensures DistinctKeys(Remove(fs, k))
  {
    if fs != [] {
      var t := fs[1..];
      assert DistinctKeys(t) by {
        assert forall i :: 0 <= i < |t| ==> t[i] == fs[i + 1];
      }
      RemoveDistinct(t, k);
      if fs[0].0 != k {
        var r := Remove(t, k);
        var e := fs[0].0;
        assert !Has(t, e) by {
          HasIffInKeys(t, e);
        }
        RemoveLookup(t, k, e);
        HasIffInKeys(r, e);
        assert forall j :: 0 <= j < |r| ==> r[j].0 != e by {
          assert forall j :: 0 <= j < |r| ==> Keys(r)[j] == r[j].0;
        }
        assert forall j :: 0 < j < |[fs[0]] + r| ==> ([fs[0]] + r)[j] == r[j - 1];
      }
    }
  }

  function HexDigit(d: nat): char
    requires d < 16
  {
    if d < 10 then ('0' as int + d) as char else ('a' as int + d - 10) as char
  }

  /** One character inside Python's `repr` of a string quoted by `q`. */
  function EscapeChar(c: char, q: char): string {
    if c == q || c == '\\' then ['\\', c]
    else if c == '\t' then "\\t"
    else if c == '\n' then "\\n"
    else if c == '\r' then "\\r"
    else if c < ' ' || ('\U{7F}' <= c <= '\U{A0}') || c == '\U{AD}' then
      "\\x" + [HexDigit(c as int / 16), HexDigit(c as int % 16)]
    else [c]
  }

  function Escape(s: string, q: char): string {
    if s == [] then [] else EscapeChar(s[0], q) + Escape(s[1..], q)
  }

  /** `repr(s)` of a string: single quotes unless only a single quote occurs. */
  function ReprString(s: string): string {
    var q := if '\'' in s && '"' !in s then '"' else '\'';
    [q] + Escape(s, q) + [q]
  }

  /** `repr(v)` */
  function Repr(v: JValue): string
    decreases v
  {
    match v
    case JNull => "None"
    case JBool(b) => BoolToString(b)
    case JInt(i) => IntToString(i)
    case JStr(s) => ReprString(s)
    case JArr(xs) => "[" + Join(", ", ReprItems(xs)) + "]"
    case JObj(fs) => "{" + Join(", ", ReprEntries(fs)) + "}"
  }

  function ReprItems(xs: seq<JValue>): seq<string>
    decreases xs
  {
    if xs == [] then [] else [Repr(xs[0])] + ReprItems(xs[1..])
  }

  function ReprEntries(fs: Fields): seq<string>
    decreases fs
  {
    if fs == [] then []
    else
      var e := fs[0];
      assert e.1 < e;
      [ReprString(e.0) + ": " + Repr(e.1)] + ReprEntries(fs[1..])
  }

  /** `str(v)`: a string is itself, everything else is its `repr`. */
  function Str(v: JValue): string {
    if v.JStr? then v.s else Repr(v)
  }
}

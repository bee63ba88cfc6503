/**
 * Placeholder syntax as the expansion buffer scans it: `${`, a non-empty key,
 * and the first `}` after the `${`. An unterminated `${` or an empty `${}` is
 * not a placeholder and stays as literal text.
 */
module Placeholders {
  import opened Wrappers

  /** A legal placeholder found in a string: its `${` at `open`, its `}` at `close`. */
  datatype Placeholder = Placeholder(open: nat, close: nat)

  /** A `${` starts at `p`. */
  predicate OpensAt(s: string, p: int) {
    0 <= p && p + 1 < |s| && s[p] == '$' && s[p + 1] == '{'
  }

  /** `s[p..q+1]` is a legal placeholder: `${`, a non-empty key with no `}`, and `}`. */
  predicate IsLegal(s: string, p: int, q: int) {
    OpensAt(s, p) && p + 2 < q < |s| && s[q] == '}'
    && forall j :: p + 2 <= j < q ==> s[j] != '}'
  }

  ghost predicate HasLegalPlaceholder(s: string) {
    exists p, q :: IsLegal(s, p, q)
  }

  /** A key that can be written as a placeholder. */
  predicate ValidKey(key: string) {
    |key| > 0 && forall j :: 0 <= j < |key| ==> key[j] != '}'
  }

  /** The placeholder text that refers to `key`. */
  function Ref(key: string): string {
    "${" + key + "}"
  }

  /** No `$` at all, so no placeholder can start inside. */
  predicate NoDollar(s: string) {
    forall j :: 0 <= j < |s| ==> s[j] != '$'
  }

  /** `s.indexOf(c, from)`: the first position at or after `from` holding `c`, or -1. */
  function IndexOf(s: string, c: char, from: nat): (r: int)
    ensures r == -1 || (from <= r < |s| && s[r] == c)
    ensures r == -1 ==> forall j :: from <= j < |s| ==> s[j] != c
    ensures r != -1 ==> forall j :: from <= j < r ==> s[j] != c
    decreases |s| - from
  {
    if from >= |s| then -1
    else if s[from] == c then from
    else IndexOf(s, c, from + 1)
  }

  /** `s.indexOf("${", from)`. */
  function IndexOfOpen(s: string, from: nat): (r: int)
    ensures r == -1 || (from <= r && OpensAt(s, r))
    ensures r == -1 ==> forall j :: from <= j ==> !OpensAt(s, j)
    ensures r != -1 ==> forall j :: from <= j < r ==> !OpensAt(s, j)
    decreases |s| - from
  {
    if from + 1 >= |s| then -1
    else if s[from] == '$' && s[from + 1] == '{' then from
    else IndexOfOpen(s, from + 1)
  }

  /**
   * The first legal placeholder starting at or after `from`. A `${` followed
   * directly by `}` is skipped; a `${` with no `}` after it ends the search,
   * since no later `${` can have one either.
   */
  function NextLegal(s: string, from: nat): (r: Option<Placeholder>)
    ensures r.Some? ==> from <= r.value.open && IsLegal(s, r.value.open, r.value.close)
    ensures r.Some? ==> forall p, q :: from <= p < r.value.open ==> !IsLegal(s, p, q)
    ensures r.None? ==> forall p, q :: from <= p ==> !IsLegal(s, p, q)
    decreases |s| - from
  {
    var p := IndexOfOpen(s, from);
    if p < 0 then None
    else
      var q := IndexOf(s, '}', p + 2);
      if q < 0 then None
      else if q == p + 2 then
        assert !OpensAt(s, p + 1);
        NextLegal(s, p + 2)
      else Some(Placeholder(p, q))
  }

  /** The `}` of a placeholder is determined by its `${`. */
  lemma {:induction false} CloseIsUnique(s: string, p: int, q1: int, q2: int)
    requires IsLegal(s, p, q1) && IsLegal(s, p, q2)
    ensures q1 == q2
  {
  }

  /** The scan finds a placeholder exactly when the string holds one. */
  lemma {:induction false} NextLegalFindsAny(s: string)
    ensures NextLegal(s, 0).Some? <==> HasLegalPlaceholder(s)
  {
  }

  /** Cutting a string around `${...}` at `p`..`q` and putting it back together. */
  lemma {:induction false} SplitAround(s: string, p: nat, q: nat)
    requires p + 2 <= q < |s| && s[p] == '$' && s[p + 1] == '{' && s[q] == '}'
    ensures s == s[..p] + Ref(s[p + 2 .. q]) + s[q + 1 ..]
  {
    var t := s[..p] + Ref(s[p + 2 .. q]) + s[q + 1 ..];
    assert |t| == |s|;
    forall i | 0 <= i < |s| ensures t[i] == s[i] {
      if i < p {
      } else if i < q + 1 {
        assert t[i] == Ref(s[p + 2 .. q])[i - p];
      } else {
        assert t[i] == s[q + 1 ..][i - q - 1];
      }
    }
  }

  /**
   * Splitting a string at its first legal placeholder: the literal text before
   * it, the key, and the text after its `}`.
   */
  function Extract(s: string): (r: (string, string, string))
    requires HasLegalPlaceholder(s)
    ensures s == r.0 + Ref(r.1) + r.2
    ensures ValidKey(r.1)
    ensures forall p, q :: p < |r.0| ==> !IsLegal(s, p, q)
  {
    var ph := NextLegal(s, 0).value;
    SplitAround(s, ph.open, ph.close);
    (s[..ph.open], s[ph.open + 2 .. ph.close], s[ph.close + 1 ..])
  }

  /**
   * When the text before a placeholder holds no `$`, that placeholder is the
   * one the scan finds.
   */
  lemma {:induction false} ExtractAfterLiteral(a: string, key: string, b: string)
    requires NoDollar(a) && ValidKey(key)
    ensures HasLegalPlaceholder(a + Ref(key) + b)
    ensures Extract(a + Ref(key) + b) == (a, key, b)
  {
    var s := a + Ref(key) + b;
    var q := |a| + |key| + 2;
    assert s[|a|] == '$' && s[|a| + 1] == '{' && s[q] == '}';
    assert forall j :: |a| + 2 <= j < q ==> s[j] == key[j - |a| - 2];
    assert IsLegal(s, |a|, q);
    var ph := NextLegal(s, 0).value;
    assert ph.open == |a|;
    CloseIsUnique(s, |a|, q, ph.close);
    var r := Extract(s);
    assert r.0 == a;
    assert r.1 == key;
    assert r.2 == b;
  }

  /** Behind a prefix `v`, the placeholders of `v + t` are those of `t`, shifted by `|v|`. */
  lemma {:induction false} LegalShift(v: string, t: string, p: int, q: int)
    requires p >= |v|
    ensures IsLegal(v + t, p, q) <==> IsLegal(t, p - |v|, q - |v|)
  {
    var s := v + t;
    assert forall j :: |v| <= j < |s| ==> s[j] == t[j - |v|];
    if IsLegal(s, p, q) {
      forall j | p - |v| + 2 <= j < q - |v|
        ensures t[j] != '}'
      {
        assert s[j + |v|] == t[j];
      }
    }
    if IsLegal(t, p - |v|, q - |v|) {
      forall j | p + 2 <= j < q
        ensures s[j] != '}'
      {
        assert t[j - |v|] == s[j];
      }
    }
  }

  /** The first placeholder of `a + Ref(key) + b` (as `Extract` cuts it) is the one at `|a|`. */
  lemma {:induction false} ExtractedIsLegal(s: string)
    requires HasLegalPlaceholder(s)
    ensures var r := Extract(s);
            IsLegal(s, |r.0|, |r.0| + |r.1| + 2)
  {
    var r := Extract(s);
    var q := |r.0| + |r.1| + 2;
    assert s[|r.0|] == '$' && s[|r.0| + 1] == '{' && s[q] == '}';
    assert forall j :: |r.0| + 2 <= j < q ==> s[j] == r.1[j - |r.0| - 2];
  }

  /** A prefix without `$` hides no placeholder and moves none. */
  lemma {:induction false} LegalAfterLiteral(v: string, t: string)
    requires NoDollar(v)
    ensures HasLegalPlaceholder(v + t) <==> HasLegalPlaceholder(t)
  {
    var s := v + t;
    if HasLegalPlaceholder(s) {
      var p, q :| IsLegal(s, p, q);
      LegalShift(v, t, p, q);
    }
    if HasLegalPlaceholder(t) {
      var p, q :| IsLegal(t, p, q);
      LegalShift(v, t, p + |v|, q + |v|);
    }
  }

  /** Behind a prefix without `$`, the scan stops at the placeholder it stops at in the rest, shifted. */
  lemma {:induction false} ScanSkipsLiteral(v: string, t: string)
    requires NoDollar(v) && HasLegalPlaceholder(t)
    ensures var r := Extract(t);
            NextLegal(v + t, 0) == Some(Placeholder(|v| + |r.0|, |v| + |r.0| + |r.1| + 2))
  {
    var s := v + t;
    var r := Extract(t);
    var open, close := |v| + |r.0|, |v| + |r.0| + |r.1| + 2;
    ExtractedIsLegal(t);
    LegalShift(v, t, open, close);
    var ph := NextLegal(s, 0).value;
    assert ph.open >= |v| by {
      assert s[ph.open] == '$';
    }
    LegalShift(v, t, ph.open, ph.close);
    CloseIsUnique(s, open, close, ph.close);
  }

  /**
   * Behind a prefix without `$`, the scan finds the placeholder it finds in
   * the rest: the prefix joins the literal text before it.
   */
  lemma {:induction false} ExtractAfterLiteralPrefix(v: string, t: string)
    requires NoDollar(v) && HasLegalPlaceholder(t)
    ensures HasLegalPlaceholder(v + t)
    ensures Extract(v + t) == (v + Extract(t).0, Extract(t).1, Extract(t).2)
  {
    var r := Extract(t);
    ScanSkipsLiteral(v, t);
    Regroup(v, r.0, Ref(r.1), r.2);
    ExtractOf(v + t, v + r.0, r.1, r.2);
  }

  /** When the scan stops right after `x`, `Extract` cuts `x + Ref(key) + y` into its three pieces. */
  lemma {:induction false} ExtractOf(s: string, x: string, key: string, y: string)
    requires s == x + Ref(key) + y
    requires NextLegal(s, 0) == Some(Placeholder(|x|, |x| + |key| + 2))
    ensures HasLegalPlaceholder(s)
    ensures Extract(s) == (x, key, y)
  {
    ExtractAt(s, |x|, |x| + |key| + 2);
    Pieces(x, key, y);
  }

  lemma {:induction false} Regroup(v: string, a: string, m: string, b: string)
    ensures v + (a + m + b) == (v + a) + m + b
  {
  }

  /** `Extract` cuts where the scan stops. */
  lemma {:induction false} ExtractAt(s: string, open: nat, close: nat)
    requires NextLegal(s, 0) == Some(Placeholder(open, close))
    ensures HasLegalPlaceholder(s)
    ensures Extract(s) == (s[..open], s[open + 2 .. close], s[close + 1 ..])
  {
  }

  /** The three pieces of `x + Ref(key) + y`, cut where `Extract` cuts. */
  lemma {:induction false} Pieces(x: string, key: string, y: string)
    ensures var s := x + Ref(key) + y;
            s[..|x|] == x && s[|x| + 2 .. |x| + |key| + 2] == key && s[|x| + |key| + 3 ..] == y
  {
  }

  /** A string without `$` holds no placeholder. */
  lemma {:induction false} NoDollarNoPlaceholder(s: string)
    requires NoDollar(s)
    ensures !HasLegalPlaceholder(s)
  {
  }
}

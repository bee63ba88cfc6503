/**
 * What `resolveValue` promises, proved about `Run`/`Resolve`: text without a
 * placeholder comes back unchanged, a key without a value is kept literally,
 * values are expanded recursively, a key that re-enters its own expansion is
 * a circular definition, and a key merely used twice is not.
 */
module ResolverProperties {
  import opened Wrappers
  import opened PropertyLookup
  import opened Placeholders
  import opened CycleGuard
  import opened PropertyResolver

  /** The loop ends when no legal placeholder is left after the cursor. */
  lemma {:induction false} RunDone(src: Sources, resolved: string, unresolved: string, path: seq<Frame>)
    requires PathOk(path, src)
    requires !HasLegalPlaceholder(unresolved)
    ensures Run(src, resolved, unresolved, path) == Ok(resolved + unresolved)
  {
    NextLegalFindsAny(unresolved);
  }

  /** One iteration on a text whose first placeholder is `${key}`, after the literal text `pre`. */
  lemma {:induction false} StepAt(src: Sources, resolved: string, pre: string, key: string, rest: string, path: seq<Frame>)
    requires PathOk(path, src)
    requires NoDollar(pre) && ValidKey(key)
    ensures HasLegalPlaceholder(pre + Ref(key) + rest)
    ensures var value := FromPropertiesThenSystemThenEnvironment(key, src);
            var next := Enter(path, key, value, |rest|);
            Step(src, resolved, pre + Ref(key) + rest, path)
            == if next.None? then Circular(key)
               else Continue(if value.None? then resolved + pre + Ref(key) else resolved + pre, After(value, rest), next.value)
  {
    ExtractAfterLiteral(pre, key, rest);
  }

  /** Running from a buffer with a placeholder is running from where one step leads. */
  lemma {:induction false} RunStep(src: Sources, resolved: string, unresolved: string, path: seq<Frame>)
    requires PathOk(path, src)
    requires HasLegalPlaceholder(unresolved)
    ensures var s := Step(src, resolved, unresolved, path);
            Run(src, resolved, unresolved, path)
            == if s.Circular? then Err(CircularDefinition(s.key)) else Run(src, s.resolved, s.unresolved, s.path)
  {
    NextLegalFindsAny(unresolved);
  }

  /** `pre${key}rest` with `key` bound to `v`: the loop moves past `pre` and goes on with `v` spliced in under `next`. */
  lemma {:induction false} StepsTo(src: Sources, resolved: string, pre: string, key: string, rest: string, v: string, path: seq<Frame>, next: seq<Frame>)
    requires PathOk(path, src) && NoDollar(pre) && ValidKey(key)
    requires FromPropertiesThenSystemThenEnvironment(key, src) == Some(v)
    requires Enter(path, key, Some(v), |rest|) == Some(next)
    ensures PathOk(next, src)
    ensures Run(src, resolved, pre + Ref(key) + rest, path) == Run(src, resolved + pre, v + rest, next)
  {
    StepAt(src, resolved, pre, key, rest, path);
    RunStep(src, resolved, pre + Ref(key) + rest, path);
  }

  /** A whole buffer `${key}` whose key has a value: the loop goes on with the value under `next`. */
  lemma {:induction false} ExpandsTo(src: Sources, resolved: string, key: string, v: string, path: seq<Frame>, next: seq<Frame>)
    requires PathOk(path, src) && ValidKey(key)
    requires FromPropertiesThenSystemThenEnvironment(key, src) == Some(v)
    requires Enter(path, key, Some(v), 0) == Some(next)
    ensures PathOk(next, src) && Run(src, resolved, Ref(key), path) == Run(src, resolved, v, next)
  {
    assert "" + Ref(key) + "" == Ref(key);
    assert resolved + "" == resolved;
    assert v + "" == v;
    StepsTo(src, resolved, "", key, "", v, path, next);
  }

  /** A whole buffer `${key}` whose key has no value: the placeholder moves behind the cursor. */
  lemma {:induction false} KeepsLiteral(src: Sources, resolved: string, key: string, path: seq<Frame>, next: seq<Frame>)
    requires PathOk(path, src) && ValidKey(key)
    requires FromPropertiesThenSystemThenEnvironment(key, src) == None
    requires Enter(path, key, None, 0) == Some(next)
    ensures PathOk(next, src) && Run(src, resolved, Ref(key), path) == Run(src, resolved + Ref(key), "", next)
  {
    assert "" + Ref(key) + "" == Ref(key);
    assert resolved + "" + Ref(key) == resolved + Ref(key);
    StepAt(src, resolved, "", key, "", path);
    RunStep(src, resolved, Ref(key), path);
  }

  /** A whole buffer `${key}` whose key is still open: the loop fails on it. */
  lemma {:induction false} FailsOn(src: Sources, resolved: string, key: string, path: seq<Frame>)
    requires PathOk(path, src) && ValidKey(key)
    requires Enter(path, key, FromPropertiesThenSystemThenEnvironment(key, src), 0).None?
    ensures Run(src, resolved, Ref(key), path) == Err(CircularDefinition(key))
  {
    assert "" + Ref(key) + "" == Ref(key);
    StepAt(src, resolved, "", key, "", path);
    RunStep(src, resolved, Ref(key), path);
  }

  /** The first expansion of a call: `${key}` with a value opens the only frame. */
  lemma {:induction false} Opens(src: Sources, key: string, v: string)
    requires ValidKey(key)
    requires FromPropertiesThenSystemThenEnvironment(key, src) == Some(v)
    ensures PathOk([Frame(key, 0)], src)
    ensures Resolve(Ref(key), src) == Run(src, "", v, [Frame(key, 0)])
  {
    var p1 := [Frame(key, 0)];
    EnterOpens([], key, Some(v), 0);
    assert [] + p1 == p1;
    ExpandsTo(src, "", key, v, [], p1);
  }

  /** Inside the expansion of `a`, a whole value `${b}` (b another key with a value) opens a second frame. */
  lemma {:induction false} Nests(src: Sources, a: string, b: string, vb: string)
    requires PathOk([Frame(a, 0)], src)
    requires ValidKey(b) && a != b
    requires FromPropertiesThenSystemThenEnvironment(b, src) == Some(vb)
    ensures PathOk([Frame(a, 0), Frame(b, 0)], src)
    ensures Run(src, "", Ref(b), [Frame(a, 0)]) == Run(src, "", vb, [Frame(a, 0), Frame(b, 0)])
  {
    var p1 := [Frame(a, 0)];
    EnterOpens(p1, b, Some(vb), 0);
    assert p1 + [Frame(b, 0)] == [Frame(a, 0), Frame(b, 0)];
    ExpandsTo(src, "", b, vb, p1, [Frame(a, 0), Frame(b, 0)]);
  }

  /** `${key}` for a key with a value free of placeholders becomes that value. */
  lemma {:induction false} SingleLookup(key: string, v: string, src: Sources)
    requires ValidKey(key)
    requires FromPropertiesThenSystemThenEnvironment(key, src) == Some(v)
    requires !HasLegalPlaceholder(v)
    ensures Resolve(Ref(key), src) == Ok(v)
  {
    Opens(src, key, v);
    RunDone(src, "", v, [Frame(key, 0)]);
    assert "" + v == v;
  }

  /** `${key}` for a key that no tier resolves stays in the output literally. */
  lemma {:induction false} UnresolvedKeyIsKept(key: string, src: Sources)
    requires ValidKey(key)
    requires key !in ResolvableKeys(src)
    ensures Resolve(Ref(key), src) == Ok(Ref(key))
  {
    var none: seq<Frame> := [];
    MissingEverywhereIsNull(key, src);
    EnterOpens([], key, None, 0);
    assert none + none == none;
    KeepsLiteral(src, "", key, [], []);
    NoDollarNoPlaceholder("");
    RunDone(src, "" + Ref(key), "", []);
    assert "" + Ref(key) + "" == Ref(key);
  }

  /** A key whose value refers to itself is a circular definition. */
  lemma {:induction false} SelfReferenceIsCircular(key: string, src: Sources)
    requires ValidKey(key)
    requires FromPropertiesThenSystemThenEnvironment(key, src) == Some(Ref(key))
    ensures Resolve(Ref(key), src) == Err(CircularDefinition(key))
  {
    var p1 := [Frame(key, 0)];
    Opens(src, key, Ref(key));
    assert p1[0] in p1;
    EnterReenters(p1, key, Some(Ref(key)), 0);
    FailsOn(src, "", key, p1);
  }

  /** `${a}` whose value is `${b}`: after two expansions the loop works on `b`'s value with both keys open. */
  lemma {:induction false} ExpandsTwice(a: string, b: string, vb: string, src: Sources)
    requires ValidKey(a) && ValidKey(b) && a != b
    requires FromPropertiesThenSystemThenEnvironment(a, src) == Some(Ref(b))
    requires FromPropertiesThenSystemThenEnvironment(b, src) == Some(vb)
    ensures PathOk([Frame(a, 0), Frame(b, 0)], src)
    ensures Resolve(Ref(a), src) == Run(src, "", vb, [Frame(a, 0), Frame(b, 0)])
  {
    Opens(src, a, Ref(b));
    Nests(src, a, b, vb);
  }

  /** Two keys whose values refer to each other form a circular definition, reported for the first. */
  lemma {:induction false} MutualReferenceIsCircular(a: string, b: string, src: Sources)
    requires ValidKey(a) && ValidKey(b) && a != b
    requires FromPropertiesThenSystemThenEnvironment(a, src) == Some(Ref(b))
    requires FromPropertiesThenSystemThenEnvironment(b, src) == Some(Ref(a))
    ensures Resolve(Ref(a), src) == Err(CircularDefinition(a))
  {
    var p2 := [Frame(a, 0), Frame(b, 0)];
    ExpandsTwice(a, b, Ref(a), src);
    assert p2[0] in p2;
    EnterReenters(p2, a, Some(Ref(b)), 0);
    FailsOn(src, "", a, p2);
  }

  /** A key whose value refers to another key resolves to that key's value. */
  lemma {:induction false} NestedResolution(a: string, b: string, v: string, src: Sources)
    requires ValidKey(a) && ValidKey(b) && a != b
    requires FromPropertiesThenSystemThenEnvironment(a, src) == Some(Ref(b))
    requires FromPropertiesThenSystemThenEnvironment(b, src) == Some(v)
    requires !HasLegalPlaceholder(v)
    ensures Resolve(Ref(a), src) == Ok(v)
  {
    ExpandsTwice(a, b, v, src);
    RunDone(src, "", v, [Frame(a, 0), Frame(b, 0)]);
    assert "" + v == v;
  }

  /** `a` in front of a successful result; an error passes through. */
  function Prepend(a: string, res: Result<string, ResolveError>): Result<string, ResolveError> {
    if res.Ok? then Ok(a + res.value) else res
  }

  /**
   * A guard whose open expansions all ended before the text still to scan
   * (after a prefix without `$`) acts like a fresh guard: every frame closes
   * at the next placeholder.
   */
  lemma {:induction false} FinishedGuardIsFresh(src: Sources, resolved: string, pre: string, u: string, path: seq<Frame>)
    requires PathOk(path, src) && NoDollar(pre)
    requires forall f :: f in path ==> f.tail >= |u|
    ensures PathOk([], src)
    ensures Run(src, resolved, pre + u, path) == Run(src, resolved, pre + u, [])
  {
    var s := pre + u;
    var none: seq<Frame> := [];
    assert PathOk(none, src);
    if !HasLegalPlaceholder(s) {
      RunDone(src, resolved, s, path);
      RunDone(src, resolved, s, none);
    } else {
      var (a, key, rest) := Extract(s);
      assert s[|a|] == '$';
      assert forall j :: 0 <= j < |pre| ==> s[j] != '$';
      assert |rest| + |key| + 3 <= |u|;
      var value := FromPropertiesThenSystemThenEnvironment(key, src);
      EnterClosesFinished(path, key, value, |rest|);
      EnterClosesFinished(none, key, value, |rest|);
      RunStep(src, resolved, s, path);
      RunStep(src, resolved, s, none);
    }
  }

  /** Literal text without `$` at the head of the buffer passes straight behind the cursor. */
  lemma {:induction false} RunShift(src: Sources, resolved: string, v: string, t: string, path: seq<Frame>)
    requires PathOk(path, src) && NoDollar(v)
    ensures Run(src, resolved, v + t, path) == Run(src, resolved + v, t, path)
  {
    LegalAfterLiteral(v, t);
    if !HasLegalPlaceholder(t) {
      RunDone(src, resolved, v + t, path);
      RunDone(src, resolved + v, t, path);
      Regroup3(resolved, v, t);
    } else {
      StepShift(src, resolved, v, t, path);
      RunStep(src, resolved, v + t, path);
      RunStep(src, resolved + v, t, path);
    }
  }

  lemma {:induction false} StepShift(src: Sources, resolved: string, v: string, t: string, path: seq<Frame>)
    requires PathOk(path, src) && NoDollar(v) && HasLegalPlaceholder(t)
    ensures HasLegalPlaceholder(v + t)
    ensures Step(src, resolved, v + t, path) == Step(src, resolved + v, t, path)
  {
    ExtractAfterLiteralPrefix(v, t);
    Regroup3(resolved, v, Extract(t).0);
  }

  lemma {:induction false} Regroup3(x: string, y: string, z: string)
    ensures x + y + z == x + (y + z)
  {
  }

  /** Text already behind the cursor plays no part in the rest of the run. */
  lemma {:induction false} RunPrepend(src: Sources, a: string, resolved: string, u: string, path: seq<Frame>)
    requires PathOk(path, src)
    ensures Run(src, a + resolved, u, path) == Prepend(a, Run(src, resolved, u, path))
    decreases Measure(src, |u|, path)
  {
    if !HasLegalPlaceholder(u) {
      RunDone(src, a + resolved, u, path);
      RunDone(src, resolved, u, path);
      Regroup3(a, resolved, u);
    } else {
      var s := Step(src, resolved, u, path);
      StepPrepend(src, a, resolved, u, path);
      RunStep(src, a + resolved, u, path);
      RunStep(src, resolved, u, path);
      if s.Continue? {
        RunPrepend(src, a, s.resolved, s.unresolved, s.path);
      }
    }
  }

  lemma {:induction false} StepPrepend(src: Sources, a: string, resolved: string, u: string, path: seq<Frame>)
    requires PathOk(path, src) && HasLegalPlaceholder(u)
    ensures var s := Step(src, resolved, u, path);
            Step(src, a + resolved, u, path) == if s.Circular? then s else Continue(a + s.resolved, s.unresolved, s.path)
  {
    var (pre, key, rest) := Extract(u);
    Regroup3(a, resolved, pre);
    Regroup3(a, resolved + pre, Ref(key));
  }

  /** A value text that starts with literal text without `$` resolves to that text, then the rest resolved. */
  lemma {:induction false} LiteralPrefix(lit: string, t: string, src: Sources)
    requires NoDollar(lit)
    ensures Resolve(lit + t, src) == Prepend(lit, Resolve(t, src))
  {
    var none: seq<Frame> := [];
    assert PathOk(none, src);
    RunShift(src, "", lit, t, none);
    assert "" + lit == lit;
    RunPrepend(src, lit, "", t, none);
    assert lit + "" == lit;
  }

  /**
   * `${key}` at the head of a value text, for a key whose value holds no `$`:
   * the value, then the rest resolved as if the key had never been used. Once
   * the expansion of `key` is over, its frame closes, so `key` may be used
   * again in the rest.
   */
  lemma {:induction false} SequentialUse(key: string, v: string, t: string, src: Sources)
    requires ValidKey(key)
    requires FromPropertiesThenSystemThenEnvironment(key, src) == Some(v)
    requires NoDollar(v)
    ensures Resolve(Ref(key) + t, src) == Prepend(v, Resolve(t, src))
  {
    var p1 := [Frame(key, |t|)];
    var none: seq<Frame> := [];
    assert PathOk(none, src);
    EnterOpens(none, key, Some(v), |t|);
    assert none + p1 == p1;
    assert "" + Ref(key) + t == Ref(key) + t;
    StepsTo(src, "", "", key, t, v, none, p1);
    assert "" + "" == "";
    FinishedGuardIsFresh(src, "", v, t, p1);
    RunShift(src, "", v, t, none);
    assert "" + v == v;
    RunPrepend(src, v, "", t, none);
    assert v + "" == v;
  }

  /**
   * Using the same key twice, one use after the other, is not a circular
   * definition: the first expansion is over before the second starts.
   */
  lemma {:induction false} RepeatedReferenceIsNotCircular(key: string, v: string, src: Sources)
    requires ValidKey(key)
    requires FromPropertiesThenSystemThenEnvironment(key, src) == Some(v)
    requires NoDollar(v)
    ensures Resolve(Ref(key) + Ref(key), src) == Ok(v + v)
  {
    SequentialUse(key, v, Ref(key), src);
    NoDollarNoPlaceholder(v);
    SingleLookup(key, v, src);
  }

  /** The same holds with literal text between the two uses. */
  lemma {:induction false} SeparatedReuse(key: string, v: string, sep: string, src: Sources)
    requires ValidKey(key)
    requires FromPropertiesThenSystemThenEnvironment(key, src) == Some(v)
    requires NoDollar(v) && NoDollar(sep)
    ensures Resolve(Ref(key) + sep + Ref(key), src) == Ok(v + sep + v)
  {
    Regroup3(Ref(key), sep, Ref(key));
    SequentialUse(key, v, sep + Ref(key), src);
    LiteralPrefix(sep, Ref(key), src);
    NoDollarNoPlaceholder(v);
    SingleLookup(key, v, src);
    Regroup3(v, sep, v);
  }
}

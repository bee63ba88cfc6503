/**
 * PropertyResolver.resolveValue: expands every `${key}` in a string, looking
 * keys up through the three tiers, expanding placeholders inside the values
 * too, and failing on a circular definition.
 */
module PropertyResolver {
  import opened Wrappers
  import opened PropertyLookup
  import opened Placeholders
  import opened CycleGuard
  import opened Termination
  import opened ExpansionBuffers

  datatype ResolveError = CircularDefinition(key: string)

  /** `m` bounds the lengths of the strings of `vs`. */
  ghost predicate Bounds(vs: set<string>, m: nat) {
    forall v :: v in vs ==> |v| <= m
  }

  lemma {:induction false} BoundExists(vs: set<string>)
    ensures exists m: nat :: Bounds(vs, m)
  {
    if vs == {} {
      assert Bounds(vs, 0);
    } else {
      var v :| v in vs;
      BoundExists(vs - {v});
      var m: nat :| Bounds(vs - {v}, m);
      assert Bounds(vs, if |v| > m then |v| else m);
    }
  }

  /** A bound on the lengths of the strings of a set. */
  ghost function LengthBound(vs: set<string>): (m: nat)
    ensures forall v :: v in vs ==> |v| <= m
  {
    BoundExists(vs);
    var m: nat :| Bounds(vs, m);
    m
  }

  /** A bound on the lengths of the values the lookup can return (see `ValueBoundHolds`). */
  ghost function ValueBound(src: Sources): nat {
    LengthBound(AllValues(src))
  }

  /** The number of keys the lookup resolves. */
  ghost function Cap(src: Sources): nat {
    |ResolvableKeys(src)|
  }

  /** No value the lookup can return is longer than `ValueBound`. */
  lemma {:induction false} ValueBoundHolds(key: string, src: Sources)
    ensures FromPropertiesThenSystemThenEnvironment(key, src).Some?
            ==> |FromPropertiesThenSystemThenEnvironment(key, src).value| <= ValueBound(src)
  {
  }

  /** The guard's path is sound: keys open once, and only keys that resolve. */
  ghost predicate PathOk(path: seq<Frame>, src: Sources) {
    Distinct(path) && PathKeys(path) <= ResolvableKeys(src)
  }

  ghost function Measure(src: Sources, n: nat, path: seq<Frame>): nat {
    Pot(n, path, Cap(src), ValueBound(src))
  }

  lemma {:induction false} SubsetCard(a: set<string>, b: set<string>)
    requires a <= b
    ensures |a| <= |b|
  {
    if a != {} {
      var x :| x in a;
      SubsetCard(a - {x}, b - {x});
    }
  }

  /** A key opens a frame only if it resolved, so open keys stay resolvable. */
  lemma {:induction false} OnlyResolvableKeysOpen(src: Sources, before: set<string>, after: set<string>, key: string, value: Option<string>)
    requires before <= ResolvableKeys(src)
    requires after <= before + (if value.Some? then {key} else {})
    requires value == FromPropertiesThenSystemThenEnvironment(key, src)
    ensures after <= ResolvableKeys(src)
  {
    MissingEverywhereIsNull(key, src);
  }

  /** The guard keeps the path no longer than the number of resolvable keys. */
  lemma {:induction false} PathOkBound(path: seq<Frame>, src: Sources)
    requires PathOk(path, src)
    ensures |path| <= |ResolvableKeys(src)|
  {
    DistinctKeysCount(path);
    SubsetCard(PathKeys(path), ResolvableKeys(src));
  }

  /** The text scanned after one step: the value then the rest, or just the rest. */
  function After(value: Option<string>, rest: string): string {
    if value.Some? then value.value + rest else rest
  }

  lemma {:induction false} AfterLength(value: Option<string>, rest: string)
    ensures |After(value, rest)| == |rest| + if value.Some? then |value.value| else 0
  {
  }

  /** One loop iteration keeps the path sound. */
  lemma {:induction false} StepKeepsPathOk(src: Sources, path: seq<Frame>, key: string, rest: nat, value: Option<string>, next: seq<Frame>)
    requires PathOk(path, src)
    requires value == FromPropertiesThenSystemThenEnvironment(key, src)
    requires Enter(path, key, value, rest) == Some(next)
    ensures PathOk(next, src)
    ensures next == Retire(path, rest + |key| + 3, rest) + (if value.Some? then [Frame(key, rest)] else [])
    ensures |next| <= Cap(src)
  {
    EnterKeepsPathDistinct(path, key, value, rest);
    OnlyResolvableKeysOpen(src, PathKeys(path), PathKeys(next), key, value);
    PathOkBound(next, src);
  }

  /**
   * One loop iteration lowers the measure: the key was cut out of an
   * `n`-character text, leaving `rest` characters after it, and its value (if
   * any) was put in their place.
   */
  lemma {:induction false} StepDecreases(src: Sources, path: seq<Frame>, n: nat, key: string, rest: string, value: Option<string>, next: seq<Frame>)
    requires |rest| + |key| + 3 <= n
    requires value.Some? ==> |value.value| <= ValueBound(src)
    requires next == Retire(path, |rest| + |key| + 3, |rest|) + (if value.Some? then [Frame(key, |rest|)] else [])
    requires |next| <= Cap(src)
    ensures Measure(src, |After(value, rest)|, next) < Measure(src, n, path)
  {
    StepDecreasesAt(Cap(src), ValueBound(src), path, n, key, rest, value, next);
  }

  /** `StepDecreases` for any number of keys `cap` and any value bound `m`. */
  lemma {:induction false} StepDecreasesAt(cap: nat, m: nat, path: seq<Frame>, n: nat, key: string, rest: string, value: Option<string>, next: seq<Frame>)
    requires |rest| + |key| + 3 <= n
    requires value.Some? ==> |value.value| <= m
    requires next == Retire(path, |rest| + |key| + 3, |rest|) + (if value.Some? then [Frame(key, |rest|)] else [])
    requires |next| <= cap
    ensures Pot(|After(value, rest)|, next, cap, m) < Pot(n, path, cap, m)
  {
    var after := |After(value, rest)|;
    AfterLength(value, rest);
    FramesAfterStep(path, next, |rest| + |key| + 3, |rest|, key, value.Some?);
    if value.Some? {
      MeasureStep(path, next, n, |rest| + |key| + 3, |rest|, key, |value.value|, after, true, cap, m);
    } else {
      MeasureStep(path, next, n, |rest| + |key| + 3, |rest|, key, 0, after, false, cap, m);
    }
  }

  /**
   * One iteration of the loop: `key` was cut out of an `n`-character text,
   * leaving `rest` after it. When the guard lets it through, the path stays
   * sound and the measure drops.
   */
  lemma {:induction false} Advance(src: Sources, path: seq<Frame>, n: nat, key: string, rest: string, value: Option<string>, next: seq<Frame>)
    requires PathOk(path, src)
    requires |rest| + |key| + 3 <= n
    requires value == FromPropertiesThenSystemThenEnvironment(key, src)
    requires Enter(path, key, value, |rest|) == Some(next)
    ensures PathOk(next, src)
    ensures Measure(src, |After(value, rest)|, next) < Measure(src, n, path)
  {
    StepKeepsPathOk(src, path, key, |rest|, value, next);
    ValueBoundHolds(key, src);
    StepDecreases(src, path, n, key, rest, value, next);
  }

  /** The guard only fails on a key that is open, and open keys have values. */
  lemma {:induction false} OnlyOpenKeysAreCircular(src: Sources, path: seq<Frame>, key: string, rest: nat, value: Option<string>)
    requires PathOk(path, src)
    requires value == FromPropertiesThenSystemThenEnvironment(key, src)
    requires Enter(path, key, value, rest).None?
    ensures value.Some?
  {
    var start := rest + |key| + 3;
    RetiredKeys(path, start, rest, key);
    RetirePreservesDistinct(path, start, rest);
    MissingEverywhereIsNull(key, src);
  }

  /** What one iteration of the loop leads to. */
  datatype Outcome =
    | Circular(key: string)
    | Continue(resolved: string, unresolved: string, path: seq<Frame>)

  /**
   * One iteration of the loop on a buffer holding a legal placeholder: the
   * key is cut out, looked up and shown to the guard; unless the guard fails,
   * its value is spliced in (or the placeholder written back when there is
   * none). The guard's path stays sound and the measure drops.
   */
  function Step(src: Sources, resolved: string, unresolved: string, path: seq<Frame>): (r: Outcome)
    requires PathOk(path, src)
    requires HasLegalPlaceholder(unresolved)
    ensures r.Continue? ==> PathOk(r.path, src)
    ensures r.Continue? ==> Measure(src, |r.unresolved|, r.path) < Measure(src, |unresolved|, path)
    ensures r.Continue? ==> resolved <= r.resolved
    ensures r.Circular? ==> FromPropertiesThenSystemThenEnvironment(r.key, src).Some?
  {
    var (pre, key, rest) := Extract(unresolved);
    var value := FromPropertiesThenSystemThenEnvironment(key, src);
    var next := Enter(path, key, value, |rest|);
    if next.None? then
      OnlyOpenKeysAreCircular(src, path, key, |rest|, value);
      Circular(key)
    else
      Advance(src, path, |unresolved|, key, rest, value, next.value);
      Continue(if value.None? then resolved + pre + Ref(key) else resolved + pre, After(value, rest), next.value)
  }

  /**
   * The result of driving the loop from a buffer (`resolved` before the
   * cursor, `unresolved` after it) and a guard holding `path`. Text already
   * behind the cursor is final, and a circular definition is only reported
   * for a key that has a value.
   */
  function Run(src: Sources, resolved: string, unresolved: string, path: seq<Frame>): (r: Result<string, ResolveError>)
    requires PathOk(path, src)
    ensures r.Ok? ==> resolved <= r.value
    ensures r.Err? ==> FromPropertiesThenSystemThenEnvironment(r.error.key, src).Some?
    decreases Measure(src, |unresolved|, path)
  {
    if NextLegal(unresolved, 0).None? then Ok(resolved + unresolved)
    else
      NextLegalFindsAny(unresolved);
      var s := Step(src, resolved, unresolved, path);
      if s.Circular? then Err(CircularDefinition(s.key))
      else Run(src, s.resolved, s.unresolved, s.path)
  }

  /**
   * What `resolveValue(value, properties, environment)` returns: a fresh
   * buffer and a fresh guard. A value without a legal placeholder comes back
   * unchanged.
   */
  function Resolve(value: string, src: Sources): (r: Result<string, ResolveError>)
    ensures !HasLegalPlaceholder(value) ==> r == Ok(value)
    ensures r.Err? ==> FromPropertiesThenSystemThenEnvironment(r.error.key, src).Some?
  {
    NextLegalFindsAny(value);
    assert "" + value == value;
    Run(src, "", value, [])
  }

  /** The private overload: the loop over a given buffer and guard. */
  method ResolveValueWith(buffer: ExpansionBuffer, guard: CircularDefinitionPreventer, src: Sources)
    returns (r: Result<string, ResolveError>)
    requires PathOk(guard.path, src)
    modifies buffer, guard
    ensures r == Run(src, old(buffer.resolved), old(buffer.unresolved), old(guard.path))
  {
    var more := buffer.HasMoreLegalPlaceholders();
    while more
      invariant PathOk(guard.path, src)
      invariant more <==> HasLegalPlaceholder(buffer.unresolved)
      invariant Run(src, buffer.resolved, buffer.unresolved, guard.path)
             == Run(src, old(buffer.resolved), old(buffer.unresolved), old(guard.path))
      decreases Measure(src, |buffer.unresolved|, guard.path)
    {
      ghost var done, before, path := buffer.resolved, buffer.unresolved, guard.path;
      NextLegalFindsAny(before);
      ghost var step := Step(src, done, before, path);
      var key := buffer.ExtractPropertyKey();
      var value := FromPropertiesThenSystemThenEnvironment(key, src);
      var ok := guard.Visited(key, value, buffer.Remaining());
      if !ok {
        return Err(CircularDefinition(key));
      }
      buffer.Add(key, value);
      more := buffer.HasMoreLegalPlaceholders();
    }
    NextLegalFindsAny(buffer.unresolved);
    r := Ok(buffer.Content());
  }

  /** The public entry point: every call gets its own buffer and guard. */
  method ResolveValue(value: string, src: Sources) returns (r: Result<string, ResolveError>)
    ensures r == Resolve(value, src)
  {
    var buffer := new ExpansionBuffer(value);
    var guard := new CircularDefinitionPreventer();
    r := ResolveValueWith(buffer, guard, src);
  }
}

/**
 * The circular-definition guard. It keeps the path of keys whose expansion is
 * still in progress. Each open expansion is a frame: the key, and how many
 * characters of the buffer follow the value spliced in for it. Counting from
 * the end keeps that number valid while more text is spliced in before it.
 * A frame is closed once the buffer's next placeholder starts at or after the
 * end of its value.
 */
module CycleGuard {
  import opened Wrappers

  datatype Frame = Frame(key: string, tail: nat)

  function Min(a: nat, b: nat): nat { if a <= b then a else b }

  /** The keys of the frames of `path`. */
  function PathKeys(path: seq<Frame>): set<string> {
    if path == [] then {} else {path[0].key} + PathKeys(path[1..])
  }

  /** No key is open twice. */
  predicate Distinct(path: seq<Frame>) {
    path == [] || (path[0].key !in PathKeys(path[1..]) && Distinct(path[1..]))
  }

  /**
   * The frames still open when a placeholder starting `start` characters
   * before the end of the buffer has been cut out, leaving `rest` characters
   * after it. Frames that ended at or before the placeholder's start close.
   * A frame that ended inside the placeholder now ends where the placeholder's
   * value will end.
   */
  function Retire(path: seq<Frame>, start: nat, rest: nat): (r: seq<Frame>)
    ensures |r| <= |path|
    ensures forall f :: f in r ==> f.tail < start && f.tail <= rest
  {
    if path == [] then []
    else if path[0].tail < start then [Frame(path[0].key, Min(path[0].tail, rest))] + Retire(path[1..], start, rest)
    else Retire(path[1..], start, rest)
  }

  /**
   * What the guard does when `key`, found at a placeholder followed by `rest`
   * characters, resolved to `value`: None when `key` is still open (the
   * circular definition), otherwise the new path. A key without a value starts
   * no expansion, so it opens no frame.
   */
  function Enter(path: seq<Frame>, key: string, value: Option<string>, rest: nat): (r: Option<seq<Frame>>)
    ensures r.None? <==> exists f :: f in path && f.key == key && f.tail < rest + |key| + 3
  {
    var open := Retire(path, rest + |key| + 3, rest);
    RetiredKeys(path, rest + |key| + 3, rest, key);
    if key in PathKeys(open) then None
    else Some(open + if value.Some? then [Frame(key, rest)] else [])
  }

  /** A key stays open exactly when one of its frames ends after the placeholder's start. */
  lemma {:induction false} RetiredKeys(path: seq<Frame>, start: nat, rest: nat, key: string)
    ensures key in PathKeys(Retire(path, start, rest)) <==> exists f :: f in path && f.key == key && f.tail < start
  {
    if path != [] {
      RetiredKeys(path[1..], start, rest, key);
      assert forall f :: f in path <==> f == path[0] || f in path[1..];
    }
  }

  /** Closing frames never reopens a key. */
  lemma {:induction false} RetirePreservesDistinct(path: seq<Frame>, start: nat, rest: nat)
    requires Distinct(path)
    ensures Distinct(Retire(path, start, rest))
    ensures PathKeys(Retire(path, start, rest)) <= PathKeys(path)
  {
    if path != [] {
      RetirePreservesDistinct(path[1..], start, rest);
    }
  }

  lemma {:induction false} PathKeysAppend(path: seq<Frame>, f: Frame)
    ensures PathKeys(path + [f]) == PathKeys(path) + {f.key}
  {
    if path != [] {
      assert (path + [f])[1..] == path[1..] + [f];
      PathKeysAppend(path[1..], f);
    } else {
      assert [f][1..] == [];
    }
  }

  lemma {:induction false} DistinctAppend(path: seq<Frame>, f: Frame)
    requires Distinct(path) && f.key !in PathKeys(path)
    ensures Distinct(path + [f])
  {
    if path != [] {
      assert (path + [f])[1..] == path[1..] + [f];
      DistinctAppend(path[1..], f);
      PathKeysAppend(path[1..], f);
    } else {
      assert [f][1..] == [];
    }
  }

  /** The guard keeps every key on the path at most once, and adds only the visited key. */
  lemma {:induction false} EnterKeepsPathDistinct(path: seq<Frame>, key: string, value: Option<string>, rest: nat)
    requires Distinct(path)
    requires Enter(path, key, value, rest).Some?
    ensures Distinct(Enter(path, key, value, rest).value)
    ensures PathKeys(Enter(path, key, value, rest).value) <= PathKeys(path) + (if value.Some? then {key} else {})
    ensures Enter(path, key, value, rest).value
         == Retire(path, rest + |key| + 3, rest) + (if value.Some? then [Frame(key, rest)] else [])
  {
    var open := Retire(path, rest + |key| + 3, rest);
    RetirePreservesDistinct(path, rest + |key| + 3, rest);
    if value.Some? {
      DistinctAppend(open, Frame(key, rest));
      PathKeysAppend(open, Frame(key, rest));
    } else {
      assert open + [] == open;
    }
  }

  /** A path without repeated keys has as many keys as frames. */
  lemma {:induction false} DistinctKeysCount(path: seq<Frame>)
    requires Distinct(path)
    ensures |PathKeys(path)| == |path|
  {
    if path != [] {
      DistinctKeysCount(path[1..]);
    }
  }

  /** A key with no frame on the path opens one (when it has a value). */
  lemma {:induction false} EnterOpens(path: seq<Frame>, key: string, value: Option<string>, rest: nat)
    requires forall f :: f in path ==> f.key != key && f.tail < rest + |key| + 3 && f.tail <= rest
    ensures Enter(path, key, value, rest) == Some(path + if value.Some? then [Frame(key, rest)] else [])
  {
    RetireKeepsOpen(path, rest + |key| + 3, rest);
    RetiredKeys(path, rest + |key| + 3, rest, key);
  }

  /** A key whose frame ends after the placeholder's start is still being expanded. */
  lemma {:induction false} EnterReenters(path: seq<Frame>, key: string, value: Option<string>, rest: nat)
    requires exists f :: f in path && f.key == key && f.tail < rest + |key| + 3
    ensures Enter(path, key, value, rest).None?
  {
  }

  /** Frames that ended before the placeholder close, so the key can open again. */
  lemma {:induction false} EnterClosesFinished(path: seq<Frame>, key: string, value: Option<string>, rest: nat)
    requires forall f :: f in path ==> f.tail >= rest + |key| + 3
    ensures Enter(path, key, value, rest) == Some(if value.Some? then [Frame(key, rest)] else [])
  {
    RetireClosesAll(path, rest + |key| + 3, rest);
    RetiredKeys(path, rest + |key| + 3, rest, key);
    assert PathKeys([]) == {};
    assert [] + [Frame(key, rest)] == [Frame(key, rest)];
    var none: seq<Frame> := [];
    assert none + none == none;
  }

  lemma {:induction false} RetireKeepsOpen(path: seq<Frame>, start: nat, rest: nat)
    requires forall f :: f in path ==> f.tail < start && f.tail <= rest
    ensures Retire(path, start, rest) == path
  {
    if path != [] {
      assert path[0] in path;
      RetireKeepsOpen(path[1..], start, rest);
      assert [path[0]] + path[1..] == path;
    }
  }

  lemma {:induction false} RetireClosesAll(path: seq<Frame>, start: nat, rest: nat)
    requires forall f :: f in path ==> f.tail >= start
    ensures Retire(path, start, rest) == []
  {
    if path != [] {
      assert path[0] in path;
      RetireClosesAll(path[1..], start, rest);
    }
  }

  /**
   * The guard of one resolution call. `seen` records the value each visited
   * key last resolved to; `path` holds the expansions still in progress.
   */
  class CircularDefinitionPreventer {
    var path: seq<Frame>
    var seen: map<string, Option<string>>

    /** A fresh guard: nothing seen, nothing open. */
    constructor ()
      ensures path == [] && seen == map[]
    {
      path := [];
      seen := map[];
    }

    /**
     * Registers `key` with the value it resolved to; `rest` is how many
     * characters of the buffer follow its placeholder. Fails (returns false,
     * the Java code throws) when `key` is still being expanded.
     */
    method Visited(key: string, value: Option<string>, rest: nat) returns (ok: bool)
      modifies this
      ensures ok <==> Enter(old(path), key, value, rest).Some?
      ensures ok ==> path == Enter(old(path), key, value, rest).value && seen == old(seen)[key := value]
      ensures !ok ==> path == old(path) && seen == old(seen)
    {
      var next := Enter(path, key, value, rest);
      if next.None? {
        return false;
      }
      path := next.value;
      seen := seen[key := value];
      ok := true;
    }
  }
}

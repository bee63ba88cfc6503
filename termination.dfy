/**
 * Why expansion stops. Every character still to be scanned is weighted by
 * how many more keys could be opened around it: (M + 1) to the power of
 * (number of resolvable keys - number of open frames covering it), where M is
 * the length of the longest value. A placeholder's `$` weighs more than the
 * whole value put in its place, whose characters are covered by one more
 * frame; the guard keeps the frames' keys distinct, so the exponent never
 * goes below zero.
 */
module Termination {
  import opened CycleGuard

  /** `a * b`, written as repeated addition so that no proof here needs nonlinear arithmetic. */
  function Mul(a: nat, b: nat): (r: nat)
    ensures a >= 1 ==> r >= b
  {
    if a == 0 then 0 else b + Mul(a - 1, b)
  }

  function Pow(b: nat, e: nat): (r: nat)
    ensures b >= 1 ==> r >= 1
  {
    if e == 0 then 1 else Mul(b, Pow(b, e - 1))
  }

  /** The number of frames covering the character `d` positions from the end of the buffer. */
  function Depth(path: seq<Frame>, d: nat): nat {
    if path == [] then 0 else (if path[0].tail < d then 1 else 0) + Depth(path[1..], d)
  }

  function Height(path: seq<Frame>, d: nat, cap: nat): nat {
    if Depth(path, d) <= cap then cap - Depth(path, d) else 0
  }

  /** The weight of the last `n` characters of the buffer. */
  function Pot(n: nat, path: seq<Frame>, cap: nat, m: nat): nat {
    if n == 0 then 0 else Pot(n - 1, path, cap, m) + Pow(m + 1, Height(path, n, cap))
  }

  lemma {:induction false} DepthAppend(path: seq<Frame>, f: Frame, d: nat)
    ensures Depth(path + [f], d) == Depth(path, d) + (if f.tail < d then 1 else 0)
  {
    if path != [] {
      assert (path + [f])[1..] == path[1..] + [f];
      DepthAppend(path[1..], f, d);
    } else {
      assert [f][1..] == [];
    }
  }

  /** Characters after the placeholder are covered by the same frames as before. */
  lemma {:induction false} DepthRetireBelow(path: seq<Frame>, start: nat, rest: nat, d: nat)
    requires d <= rest < start
    ensures Depth(Retire(path, start, rest), d) == Depth(path, d)
  {
    if path != [] {
      DepthRetireBelow(path[1..], start, rest, d);
    }
  }

  /** Characters of the spliced value are covered by every frame still open. */
  lemma {:induction false} DepthRetireAbove(path: seq<Frame>, start: nat, rest: nat, d: nat)
    requires rest < d
    ensures Depth(Retire(path, start, rest), d) == |Retire(path, start, rest)|
  {
    if path != [] {
      DepthRetireAbove(path[1..], start, rest, d);
    }
  }

  /** The frames covering the placeholder's `$` are exactly those that stay open. */
  lemma {:induction false} DepthAtStart(path: seq<Frame>, start: nat, rest: nat)
    ensures Depth(path, start) == |Retire(path, start, rest)|
  {
    if path != [] {
      DepthAtStart(path[1..], start, rest);
    }
  }

  lemma {:induction false} PotMonotone(n: nat, k: nat, path: seq<Frame>, cap: nat, m: nat)
    requires k <= n
    ensures Pot(k, path, cap, m) <= Pot(n, path, cap, m)
  {
    if k < n {
      PotMonotone(n - 1, k, path, cap, m);
    }
  }

  lemma {:induction false} PotSameBelow(r: nat, p1: seq<Frame>, p2: seq<Frame>, cap: nat, m: nat)
    requires forall d :: 1 <= d <= r ==> Depth(p1, d) == Depth(p2, d)
    ensures Pot(r, p1, cap, m) == Pot(r, p2, cap, m)
  {
    if r > 0 {
      PotSameBelow(r - 1, p1, p2, cap, m);
    }
  }

  lemma {:induction false} PotFlat(r: nat, len: nat, top: nat, path: seq<Frame>, cap: nat, m: nat, h: nat)
    requires top == r + len
    requires forall d :: r < d <= top ==> Height(path, d, cap) == h
    ensures Pot(top, path, cap, m) == Pot(r, path, cap, m) + Mul(len, Pow(m + 1, h))
  {
    if len > 0 {
      PotFlat(r, len - 1, top - 1, path, cap, m, h);
    }
  }

  lemma {:induction false} MulMonotone(a: nat, c: nat, p: nat)
    requires a <= c
    ensures Mul(a, p) <= Mul(c, p)
  {
    if a < c {
      MulMonotone(a, c - 1, p);
    }
  }

  lemma {:induction false} MulBelow(len: nat, m: nat, p: nat)
    requires len <= m && p >= 1
    ensures Mul(len, p) < Mul(m + 1, p)
  {
    MulMonotone(len, m, p);
  }

  lemma {:induction false} FramesAfterStep(path: seq<Frame>, next: seq<Frame>, start: nat, rest: nat, key: string, pushed: bool)
    requires next == Retire(path, start, rest) + (if pushed then [Frame(key, rest)] else [])
    ensures |next| == |Retire(path, start, rest)| + if pushed then 1 else 0
  {
  }

  /** The text after the placeholder weighs the same under the old and the new frames. */
  lemma {:induction false} RestUnchanged(path: seq<Frame>, next: seq<Frame>, start: nat, rest: nat, key: string, pushed: bool, cap: nat, m: nat)
    requires next == Retire(path, start, rest) + (if pushed then [Frame(key, rest)] else [])
    requires rest < start
    ensures Pot(rest, next, cap, m) == Pot(rest, path, cap, m)
  {
    var open := Retire(path, start, rest);
    forall d | 1 <= d <= rest ensures Depth(next, d) == Depth(path, d) {
      DepthRetireBelow(path, start, rest, d);
      if pushed { DepthAppend(open, Frame(key, rest), d); } else { assert next == open; }
    }
    PotSameBelow(rest, next, path, cap, m);
  }

  /** Before the step, the placeholder's `$` alone adds `(m + 1)` to the power of the open frames' height. */
  lemma {:induction false} DollarWeight(path: seq<Frame>, n: nat, start: nat, rest: nat, cap: nat, m: nat)
    requires rest < start <= n
    requires |Retire(path, start, rest)| <= cap
    ensures Pot(rest, path, cap, m) + Pow(m + 1, cap - |Retire(path, start, rest)|) <= Pot(n, path, cap, m)
  {
    DepthAtStart(path, start, rest);
    PotMonotone(start - 1, rest, path, cap, m);
    PotMonotone(n, start, path, cap, m);
  }

  /** After the step, the spliced value weighs less than that `$` did. */
  lemma {:induction false} ValueWeight(path: seq<Frame>, next: seq<Frame>, start: nat, rest: nat, key: string, len: nat, after: nat, pushed: bool, cap: nat, m: nat)
    requires next == Retire(path, start, rest) + (if pushed then [Frame(key, rest)] else [])
    requires |Retire(path, start, rest)| + (if pushed then 1 else 0) <= cap
    requires pushed ==> len <= m
    requires !pushed ==> len == 0
    requires after == rest + len
    ensures Pot(after, next, cap, m) < Pot(rest, next, cap, m) + Pow(m + 1, cap - |Retire(path, start, rest)|)
  {
    var open := Retire(path, start, rest);
    if pushed {
      var h := cap - |open| - 1;
      forall d | rest < d <= after ensures Height(next, d, cap) == h {
        DepthRetireAbove(path, start, rest, d);
        DepthAppend(open, Frame(key, rest), d);
      }
      PotFlat(rest, len, after, next, cap, m, h);
      MulBelow(len, m, Pow(m + 1, h));
    } else {
      assert after == rest;
    }
  }

  /**
   * One extraction lowers the weight: the placeholder starting `start`
   * characters from the end of an `n`-character buffer, followed by `rest`
   * characters, is replaced by `len` characters under one new frame (or,
   * when `pushed` is false, by nothing).
   */
  lemma {:induction false} MeasureStep(path: seq<Frame>, next: seq<Frame>, n: nat, start: nat, rest: nat, key: string, len: nat, after: nat, pushed: bool, cap: nat, m: nat)
    requires next == Retire(path, start, rest) + (if pushed then [Frame(key, rest)] else [])
    requires rest < start <= n
    requires |Retire(path, start, rest)| + (if pushed then 1 else 0) <= cap
    requires pushed ==> len <= m
    requires !pushed ==> len == 0
    requires after == rest + len
    ensures Pot(after, next, cap, m) < Pot(n, path, cap, m)
  {
    RestUnchanged(path, next, start, rest, key, pushed, cap, m);
    DollarWeight(path, n, start, rest, cap, m);
    ValueWeight(path, next, start, rest, key, len, after, pushed, cap, m);
  }
}

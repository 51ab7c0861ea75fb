/**
 * The helper functions of the library's `Algorithms` namespace that the list
 * monad and `max` are built from. Their PHP definitions are not part of this
 * model; each function below states the semantics assumed for it.
 */
module Algorithms {
  import opened Values

  /** `fold($f, $xs, $acc)`: a left fold, `f(... f(f(acc, xs[0]), xs[1]) ..., xs[n-1])`. */
  function Fold<A, B>(f: (A, B) -> A, s: seq<B>, acc: A): A
    decreases |s|
  {
    if s == [] then acc else Fold(f, s[1..], f(acc, s[0]))
  }

  /** `map($f, $xs)`: applies `f` to every element, keeping the order. */
  function Map<A, B>(f: A -> B, s: seq<A>): (r: seq<B>)
    ensures |r| == |s|
    ensures forall k :: 0 <= k < |s| ==> r[k] == f(s[k])
  {
    if s == [] then [] else [f(s[0])] + Map(f, s[1..])
  }

  /** `filter($p, $xs)`: keeps the elements satisfying `p`, in order. */
  function Filter<T>(p: T -> bool, s: seq<T>): (r: seq<T>)
    ensures |r| <= |s|
    ensures forall k :: 0 <= k < |r| ==> p(r[k])
  {
    if s == [] then [] else (if p(s[0]) then [s[0]] else []) + Filter(p, s[1..])
  }

  /** `compose($f, $g)`: composition that applies its arguments left to right,
      so `compose($f, $g)($x)` is `$g($f($x))`. */
  function Compose<A, B, C>(f: A -> B, g: B -> C): A -> C {
    x => g(f(x))
  }

  /** `partialLeft($f, $a)`: fixes the first argument of a two-argument function. */
  function PartialLeft<A, B, C>(f: (A, B) -> C, a: A): B -> C {
    b => f(a, b)
  }

  /** `array_merge($a, $b)` on two lists: `b` appended after `a`. */
  function ArrayMerge<T>(a: seq<T>, b: seq<T>): seq<T> {
    a + b
  }

  /** The lists of a list of lists, one after the other. */
  function Concat<T>(ss: seq<seq<T>>): seq<T> {
    if ss == [] then [] else ss[0] + Concat(ss[1..])
  }

  /** `extend($list, ...$lists)`: `list` followed by every list of `lists`, in order. */
  function Extend<T>(list: seq<T>, lists: seq<seq<T>>): seq<T> {
    list + Concat(lists)
  }

  /** `flatten($xs)`: a deep flatten; every nested array is replaced, recursively,
      by its elements, so only the non-array leaves remain, in left-to-right order. */
  function Flatten(s: seq<Val>): (r: seq<Val>)
    ensures Flat(r)
  {
    if s == [] then []
    else (if s[0].Arr? then Flatten(s[0].items) else [s[0]]) + Flatten(s[1..])
  }

  /** `mapDeep($f, $xs)`: applies `f` to every non-array leaf and keeps the
      nesting of the arrays unchanged. */
  function MapDeep(f: Val -> Val, s: seq<Val>): (r: seq<Val>)
    ensures |r| == |s|
  {
    if s == [] then []
    else [if s[0].Arr? then Arr(MapDeep(f, s[0].items)) else f(s[0])] + MapDeep(f, s[1..])
  }

  /** `isArrayOf($xs) == 'integer'`: every element is an integer. (For an empty
      array the PHP test may come out either way; `max` returns 0 for it in both
      branches, see `Maximum.MaxEmpty`.) */
  predicate AllInts(s: seq<Val>) {
    forall k :: 0 <= k < |s| ==> s[k].Int?
  }

  // ---------------------------------------------------------------------------
  // Facts about the helpers

  /** Flattening distributes over concatenation. */
  lemma {:induction false} FlattenAppend(a: seq<Val>, b: seq<Val>)
    ensures Flatten(a + b) == Flatten(a) + Flatten(b)
    decreases |a|
  {
    if a == [] {
      assert a + b == b;
    } else {
      assert (a + b)[0] == a[0];
      assert (a + b)[1..] == a[1..] + b;
      FlattenAppend(a[1..], b);
    }
  }

  /** A sequence that is already flat is its own flattening, and only then. */
  lemma {:induction false} FlattenFixedIff(s: seq<Val>)
    ensures Flatten(s) == s <==> Flat(s)
    decreases |s|
  {
    if s != [] {
      FlattenFixedIff(s[1..]);
      if Flat(s) {
        assert Flat(s[1..]) by {
          forall k | 0 <= k < |s[1..]| ensures !s[1..][k].Arr? {
            assert s[1..][k] == s[k + 1];
          }
        }
        assert s == [s[0]] + s[1..];
      }
    }
  }

  /** Flattening twice is flattening once. */
  lemma FlattenIdempotent(s: seq<Val>)
    ensures Flatten(Flatten(s)) == Flatten(s)
  {
    FlattenFixedIff(Flatten(s));
  }

  /** On a flat sequence `mapDeep` is the plain element-wise `map`. */
  lemma {:induction false} MapDeepOfFlat(f: Val -> Val, s: seq<Val>)
    requires Flat(s)
    ensures MapDeep(f, s) == Map(f, s)
    decreases |s|
  {
    if s != [] {
      assert Flat(s[1..]) by {
        forall k | 0 <= k < |s[1..]| ensures !s[1..][k].Arr? {
          assert s[1..][k] == s[k + 1];
        }
      }
      MapDeepOfFlat(f, s[1..]);
    }
  }
}

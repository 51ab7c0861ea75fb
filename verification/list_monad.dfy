/**
 * The list monad: a value wrapper around a PHP array. Its collection is kept as
 * given; `Extract` hands out the deep-flattened collection.
 */
module ListMonads {
  import opened Values
  import Algorithms

  datatype ListMonad = ListMonad(collection: seq<Val>)

  /** `of`: an array becomes the collection as it is; any other value becomes a
      one-element collection. */
  function Of(v: Val): (m: ListMonad)
    ensures m.collection == [v] <==> !v.Arr?
    ensures v.Arr? ==> Arr(m.collection) == v
    ensures Extract(m) == Algorithms.Flatten([v])
  {
    if v.Arr? then
      assert v.items != [v] by {
        if |v.items| == 1 {
          assert v.items[0] in v.items;
        }
      }
      ListMonad(v.items)
    else
      ListMonad([v])
  }

  /** `extract`: the collection, deep-flattened. */
  function Extract(m: ListMonad): (r: seq<Val>)
    ensures Flat(r)
  {
    Algorithms.Flatten(m.collection)
  }

  // ---------------------------------------------------------------------------
  // bind, map, flatMap

  /** The results of a bound function, in collection order: the extraction of
      `f(x)` for every element `x`, one after the other. The reference against
      which `Bind` is stated. */
  function Outputs(f: Val -> ListMonad, s: seq<Val>): seq<Val> {
    if s == [] then [] else Extract(f(s[0])) + Outputs(f, s[1..])
  }

  /** The fold step of `bind`: `$acc[] = $function($item)->extract()`, which
      pushes the extracted result as ONE nested array. */
  function PushExtracted(f: Val -> ListMonad): (seq<Val>, Val) -> seq<Val> {
    (acc: seq<Val>, item: Val) => acc + [Arr(Extract(f(item)))]
  }

  /** The first stage of `bind`'s pipeline: fold the list with `PushExtracted`. */
  function CollectResults(f: Val -> ListMonad): seq<Val> -> seq<Val> {
    (list: seq<Val>) => Algorithms.Fold(PushExtracted(f), list, [])
  }

  /** The array `bind` flattens: `compose(collect, partialLeft('array_merge',
      collection))` applied to the collection. */
  function Merged(m: ListMonad, f: Val -> ListMonad): seq<Val> {
    var concat := Algorithms.Compose(
      CollectResults(f),
      Algorithms.PartialLeft(Algorithms.ArrayMerge<Val>, m.collection));
    concat(m.collection)
  }

  /** `bind`: the merged array, flattened and lifted with `of`. The original
      collection comes first in the merge, so its elements are kept in front of
      the results. */
  function Bind(m: ListMonad, f: Val -> ListMonad): (r: ListMonad)
    ensures Flat(r.collection)
    ensures Extract(r) == Extract(m) + Outputs(f, m.collection)
    ensures |Extract(r)| >= |Extract(m)|
    ensures Extract(r)[..|Extract(m)|] == Extract(m)
  {
    var flat := Algorithms.Flatten(Merged(m, f));
    MergedExtract(m, f);
    Algorithms.FlattenFixedIff(flat);
    assert Of(Arr(flat)).collection == flat;
    Of(Arr(flat))
  }

  /** The pushed results, one nested array per element: a reference for the fold. */
  function Nested(f: Val -> ListMonad, s: seq<Val>): seq<Val> {
    if s == [] then [] else [Arr(Extract(f(s[0])))] + Nested(f, s[1..])
  }

  lemma {:induction false} FoldPushExtracted(f: Val -> ListMonad, s: seq<Val>, acc: seq<Val>)
    ensures Algorithms.Fold(PushExtracted(f), s, acc) == acc + Nested(f, s)
    decreases |s|
  {
    if s != [] {
      var acc' := PushExtracted(f)(acc, s[0]);
      assert acc' == acc + [Arr(Extract(f(s[0])))];
      FoldPushExtracted(f, s[1..], acc');
    }
  }

  /** Flattening the pushed results gives the outputs in order. */
  lemma {:induction false} FlattenNested(f: Val -> ListMonad, s: seq<Val>)
    ensures Algorithms.Flatten(Nested(f, s)) == Outputs(f, s)
    decreases |s|
  {
    if s != [] {
      var head := [Arr(Extract(f(s[0])))];
      Algorithms.FlattenAppend(head, Nested(f, s[1..]));
      Algorithms.FlattenFixedIff(Extract(f(s[0])));
      assert Algorithms.Flatten(head) == Extract(f(s[0])) + Algorithms.Flatten([]);
      FlattenNested(f, s[1..]);
    }
  }

  lemma MergedIs(m: ListMonad, f: Val -> ListMonad)
    ensures Merged(m, f) == m.collection + Nested(f, m.collection)
  {
    var s := m.collection;
    var collect := CollectResults(f);
    var merge := Algorithms.PartialLeft(Algorithms.ArrayMerge<Val>, s);
    assert Merged(m, f) == Algorithms.Compose(collect, merge)(s);
    assert Algorithms.Compose(collect, merge)(s) == merge(collect(s));
    assert collect(s) == Algorithms.Fold(PushExtracted(f), s, []);
    FoldPushExtracted(f, s, []);
    var nested := Nested(f, s);
    assert [] + nested == nested;
    assert collect(s) == nested;
    assert merge(collect(s)) == s + nested;
  }

  /** The flattened merge is the flattened collection followed by the outputs. */
  lemma MergedExtract(m: ListMonad, f: Val -> ListMonad)
    ensures Algorithms.Flatten(Merged(m, f)) == Extract(m) + Outputs(f, m.collection)
  {
    var s := m.collection;
    MergedIs(m, f);
    Algorithms.FlattenAppend(s, Nested(f, s));
    FlattenNested(f, s);
  }

  /** `x -> ListMonad::of([x, x])`, the function of the example below. */
  function Twice(x: Val): ListMonad {
    Of(Arr([x, x]))
  }

  lemma TwiceOutputs(a: Val, b: Val)
    requires !a.Arr? && !b.Arr?
    ensures Outputs(Twice, [a, b]) == [a, a, b, b]
  {
    assert Extract(Twice(a)) == [a, a] by {
      Algorithms.FlattenFixedIff([a, a]);
    }
    assert Extract(Twice(b)) == [b, b] by {
      Algorithms.FlattenFixedIff([b, b]);
    }
    assert [a, b][1..] == [b];
    assert Outputs(Twice, [b]) == [b, b];
  }

  /** `bind` is not the textbook list-monad bind: binding `Twice` over `[a, b]`
      keeps `a, b` in front of the doubled elements. */
  lemma BindKeepsOriginals(m: ListMonad, a: Val, b: Val)
    requires m.collection == [a, b] && !a.Arr? && !b.Arr?
    ensures Extract(Bind(m, Twice)) == [a, b, a, a, b, b]
  {
    var original, doubled := [a, b], [a, a, b, b];
    assert Extract(m) == original by {
      Algorithms.FlattenFixedIff(original);
    }
    assert Outputs(Twice, m.collection) == doubled by {
      TwiceOutputs(a, b);
    }
    assert original + doubled == [a, b, a, a, b, b];
  }

  /** `extract` is idempotent: lifting an extraction with `of` and extracting
      again gives the same flat sequence. */
  lemma ExtractIdempotent(m: ListMonad)
    ensures Extract(Of(Arr(Extract(m)))) == Extract(m)
  {
    Algorithms.FlattenIdempotent(m.collection);
  }

  /** `x -> of(f(x))`, the function `map` binds. */
  function Lifted(f: Val -> Val): Val -> ListMonad {
    x => Of(f(x))
  }

  /** The outputs of a lifted function are the flattened images. */
  lemma {:induction false} OutputsLifted(f: Val -> Val, s: seq<Val>)
    ensures Outputs(Lifted(f), s) == Algorithms.Flatten(Algorithms.Map(f, s))
    decreases |s|
  {
    if s != [] {
      var rest := Algorithms.Map(f, s[1..]);
      assert Algorithms.Map(f, s) == [f(s[0])] + rest;
      Algorithms.FlattenAppend([f(s[0])], rest);
      assert Extract(Lifted(f)(s[0])) == Algorithms.Flatten([f(s[0])]);
      OutputsLifted(f, s[1..]);
    }
  }

  /** `map`: `bind` with `x -> of(f(x))`. Its extraction is the extracted
      collection followed by the images of the (unflattened) collection's
      elements, each image flattened. */
  function Map(m: ListMonad, f: Val -> Val): (r: ListMonad)
    ensures Extract(r) == Extract(m) + Algorithms.Flatten(Algorithms.Map(f, m.collection))
  {
    OutputsLifted(f, m.collection);
    Bind(m, Lifted(f))
  }

  /** For a function that returns no arrays, `map` appends exactly the images. */
  lemma MapScalars(m: ListMonad, f: Val -> Val)
    requires forall k :: 0 <= k < |m.collection| ==> !f(m.collection[k]).Arr?
    ensures Extract(Map(m, f)) == Extract(m) + Algorithms.Map(f, m.collection)
  {
    Algorithms.FlattenFixedIff(Algorithms.Map(f, m.collection));
  }

  /** `flatMap`: the extraction of `map`, a flat sequence that starts with the
      extracted collection. */
  function FlatMap(m: ListMonad, f: Val -> Val): (r: seq<Val>)
    ensures Flat(r)
    ensures r == Extract(m) + Algorithms.Flatten(Algorithms.Map(f, m.collection))
    ensures |r| >= |Extract(m)| && r[..|Extract(m)|] == Extract(m)
  {
    Extract(Map(m, f))
  }

  // ---------------------------------------------------------------------------
  // ap

  /** The images of `list` under callable `id`, in order: the reference for one
      callable's contribution to `ap`. */
  function Images(invoke: (nat, Val) -> Val, id: nat, list: seq<Val>): seq<Val> {
    if list == [] then [] else [invoke(id, list[0])] + Images(invoke, id, list[1..])
  }

  /** What `ap` appends for the argument list `fs`: for every callable of `fs`,
      in order, the images of `list` under it; non-callables add nothing. */
  function Applied(invoke: (nat, Val) -> Val, fs: seq<Val>, list: seq<Val>): seq<Val> {
    if fs == [] then []
    else (if fs[0].Fn? then Images(invoke, fs[0].id, list) else []) + Applied(invoke, fs[1..], list)
  }

  /** The map stage of `ap`: `mapDeep($func, $list)` for one callable. Only
      callables reach this stage (the filter stage drops everything else), so
      the non-callable case never occurs and yields nothing. */
  function ApplyDeep(invoke: (nat, Val) -> Val, list: seq<Val>): Val -> seq<Val> {
    (func: Val) =>
      match func
      case Fn(id) => Algorithms.MapDeep((v: Val) => invoke(id, v), list)
      case _ => []
  }

  /** `ap`: filter the argument's extraction down to its callables, map each
      callable over this monad's extraction with `mapDeep`, and `extend` the
      extraction with the results. The new monad's collection is not flattened. */
  function Ap(m: ListMonad, app: ListMonad, invoke: (nat, Val) -> Val): (r: ListMonad)
    ensures r.collection == Extract(m) + Applied(invoke, Extract(app), Extract(m))
  {
    var list := Extract(m);
    var result := Algorithms.Compose(
      Algorithms.Compose(
        Algorithms.PartialLeft(Algorithms.Filter<Val>, IsCallable),
        Algorithms.PartialLeft(Algorithms.Map<Val, seq<Val>>, ApplyDeep(invoke, list))),
      (results: seq<seq<Val>>) => Algorithms.Extend(list, results));
    ApStages(invoke, Extract(app), list);
    ListMonad(result(Extract(app)))
  }

  /** The three stages of `ap` on a flat list compute `Applied`. */
  lemma {:induction false} ApStages(invoke: (nat, Val) -> Val, fs: seq<Val>, list: seq<Val>)
    requires Flat(list)
    ensures Algorithms.Concat(Algorithms.Map(ApplyDeep(invoke, list), Algorithms.Filter(IsCallable, fs)))
            == Applied(invoke, fs, list)
    decreases |fs|
  {
    if fs != [] {
      ApStages(invoke, fs[1..], list);
      var rest := Algorithms.Filter(IsCallable, fs[1..]);
      if fs[0].Fn? {
        var id := fs[0].id;
        assert Algorithms.Filter(IsCallable, fs) == [fs[0]] + rest;
        var mapped := Algorithms.Map(ApplyDeep(invoke, list), [fs[0]] + rest);
        assert mapped == [ApplyDeep(invoke, list)(fs[0])] + Algorithms.Map(ApplyDeep(invoke, list), rest);
        var g := (v: Val) => invoke(id, v);
        Algorithms.MapDeepOfFlat(g, list);
        ImagesAsMap(invoke, id, g, list);
      } else {
        assert Algorithms.Filter(IsCallable, fs) == rest;
      }
    }
  }

  lemma {:induction false} ImagesAsMap(invoke: (nat, Val) -> Val, id: nat, g: Val -> Val, list: seq<Val>)
    requires forall v :: g(v) == invoke(id, v)
    ensures Algorithms.Map(g, list) == Images(invoke, id, list)
    decreases |list|
  {
    if list != [] {
      ImagesAsMap(invoke, id, g, list[1..]);
    }
  }

  /** Counts the callables of a list. */
  function CallableCount(fs: seq<Val>): nat {
    if fs == [] then 0 else (if fs[0].Fn? then 1 else 0) + CallableCount(fs[1..])
  }

  /** An argument without callables leaves the extracted list unchanged. */
  lemma ApNoCallables(m: ListMonad, app: ListMonad, invoke: (nat, Val) -> Val)
    requires forall k :: 0 <= k < |Extract(app)| ==> !Extract(app)[k].Fn?
    ensures Ap(m, app, invoke).collection == Extract(m)
    ensures Extract(Ap(m, app, invoke)) == Extract(m)
  {
    AppliedNoCallables(invoke, Extract(app), Extract(m));
    Algorithms.FlattenFixedIff(Extract(m));
  }

  lemma {:induction false} AppliedNoCallables(invoke: (nat, Val) -> Val, fs: seq<Val>, list: seq<Val>)
    requires forall k :: 0 <= k < |fs| ==> !fs[k].Fn?
    ensures Applied(invoke, fs, list) == []
    decreases |fs|
  {
    if fs != [] {
      AppliedNoCallables(invoke, fs[1..], list);
    }
  }

  /** `ap` keeps the list and adds one full copy of it per callable: the
      collection is `1 + callables` times as long as the extracted list. */
  lemma ApLength(m: ListMonad, app: ListMonad, invoke: (nat, Val) -> Val)
    ensures |Ap(m, app, invoke).collection| == |Extract(m)| * (1 + CallableCount(Extract(app)))
  {
    AppliedLength(invoke, Extract(app), Extract(m));
  }

  lemma {:induction false} AppliedLength(invoke: (nat, Val) -> Val, fs: seq<Val>, list: seq<Val>)
    ensures |Applied(invoke, fs, list)| == |list| * CallableCount(fs)
    decreases |fs|
  {
    if fs != [] {
      AppliedLength(invoke, fs[1..], list);
      if fs[0].Fn? {
        ImagesLength(invoke, fs[0].id, list);
      }
    }
  }

  lemma {:induction false} ImagesLength(invoke: (nat, Val) -> Val, id: nat, list: seq<Val>)
    ensures |Images(invoke, id, list)| == |list|
    decreases |list|
  {
    if list != [] {
      ImagesLength(invoke, id, list[1..]);
    }
  }

  /** The extraction of `ap`'s result starts with this monad's extraction. */
  lemma ApKeepsList(m: ListMonad, app: ListMonad, invoke: (nat, Val) -> Val)
    ensures |Extract(Ap(m, app, invoke))| >= |Extract(m)|
    ensures Extract(Ap(m, app, invoke))[..|Extract(m)|] == Extract(m)
  {
    var list := Extract(m);
    var added := Applied(invoke, Extract(app), list);
    Algorithms.FlattenAppend(list, added);
    Algorithms.FlattenFixedIff(list);
  }
}

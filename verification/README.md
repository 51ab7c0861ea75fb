# bingo-functional: list monad and `max`

A Dafny model of two pure components of the PHP library bingo-functional:

- `ListMonad` (`src/Functors/Monads/ListMonad.php`) wraps a PHP array. Its
  operations are `of`, `extract`, `bind`, `map`, `flatMap` and `ap`.
  `extract` hands out the collection deep-flattened. `bind` keeps the original
  collection and appends every element's result after it, then flattens. It
  is not the textbook list-monad bind, and the model follows the code.
- `max` (`src/Algorithms/Max.php`) folds an all-integer collection with
  `$val > $acc ? $val : $acc`, seeded with 0. Any other collection yields 0.

Files:

- `values.dfy` (module `Values`): the PHP value type `Val`. It has the
  variants `Int`, `Float`, `Str`, `Fn` (a callable) and `Arr` (an array as a
  sequence).
- `algorithms.dfy` (module `Algorithms`): the library helpers the two
  components use. Their PHP code is not part of this model, so each one
  carries a comment stating its assumed semantics:
  - `fold` is a left fold.
  - `compose` applies its arguments left to right.
  - `partialLeft` fixes the first argument.
  - `flatten` is a deep flatten.
  - `mapDeep` maps the leaves and keeps the nesting.
  - `extend` and `array_merge` concatenate lists.
  - `filter` and `map` keep the element order.
  - `isArrayOf(...) == 'integer'` means every element is an integer.
- `list_monad.dfy` (module `ListMonads`): the monad and its operations.
  `bind` and `ap` are built from the same `compose`/`partialLeft`/`fold`
  pipeline as the source. Each is proved equal to a plain reference
  definition: `Outputs` for `bind`, `Applied` for `ap`.
- `maximum.dfy` (module `Maximum`): `max`, its bounds, and order
  independence.

## Model

| member | source | states |
|---|---|---|
| ListMonads.Of | src/Functors/Monads/ListMonad.php:45-48 | The collection is exactly the one-element `[v]` if and only if `v` is not an array. An array is stored unchanged. Extracting the result equals flattening `[v]`. |
| ListMonads.Extract | src/Functors/Monads/ListMonad.php:143-146 | The extraction is flat: no element is an array. |
| ListMonads.ExtractIdempotent | src/Functors/Monads/ListMonad.php:143-146 | `of(m.extract()).extract() == m.extract()`. |
| ListMonads.MergedIs | src/Functors/Monads/ListMonad.php:92-105 | The compose/fold/array_merge pipeline of `bind` yields the collection followed by one nested array per element, holding `f(x)->extract()`, in collection order. |
| ListMonads.Bind | src/Functors/Monads/ListMonad.php:90-108 | The result's collection is flat. Its extraction is the flattened collection followed by every element's `f(x)->extract()` in collection order. The original elements always come first, so the extraction never gets shorter. |
| ListMonads.BindKeepsOriginals | src/Functors/Monads/ListMonad.php:92-107 | Binding `x -> of([x, x])` over `[a, b]` gives `[a, b, a, a, b, b]`, not the textbook `[a, a, b, b]`. |
| ListMonads.Map | src/Functors/Monads/ListMonad.php:117-122 | `map(f)` extracts to `extract()` followed by the flattened images `f(x)` of the collection's elements, in order. |
| ListMonads.MapScalars | src/Functors/Monads/ListMonad.php:117-122 | When `f` returns no array, `map(f).extract() == extract() ++ [f(x) for x in collection]`. |
| ListMonads.FlatMap | src/Functors/Monads/ListMonad.php:131-136 | `flatMap(f)` is `map(f)->extract()`: flat, starting with `extract()`, then the flattened images. |
| ListMonads.ApStages | src/Functors/Monads/ListMonad.php:61-78 | The filter/map/mapDeep pipeline of `ap` over a flat list yields, for each callable of the argument in order, the list mapped through it. Non-callables contribute nothing. |
| ListMonads.Ap | src/Functors/Monads/ListMonad.php:57-81 | The new collection is this monad's extraction followed by that extraction mapped through each callable of the argument's extraction, in order. |
| ListMonads.ApNoCallables | src/Functors/Monads/ListMonad.php:57-81 | An argument with no callables leaves the collection equal to this monad's extraction. |
| ListMonads.ApLength | src/Functors/Monads/ListMonad.php:57-81 | The new collection is `1 + (number of callables)` times as long as the extracted list. |
| ListMonads.ApKeepsList | src/Functors/Monads/ListMonad.php:59-80 | The extraction of `ap`'s result starts with this monad's extraction. |
| Maximum.FoldLarger | src/Algorithms/Max.php:19 | From any seed, the fold is at least the seed and bounds every integer. It is the seed or one of the elements. |
| Maximum.Max | src/Algorithms/Max.php:16-23 | The result is never negative. A collection that is not all integers yields 0. An all-integer collection yields a value that bounds every element and is 0 or one of the elements. |
| Maximum.MaxUnique | src/Algorithms/Max.php:18-20 | At most one value meets `Max`'s contract, so that contract determines `max`. |
| Maximum.MaxEmpty | src/Algorithms/Max.php:18-20 | The empty collection yields 0. |
| Maximum.MaxNonPositive | src/Algorithms/Max.php:19-20 | A collection whose integers are all at most 0 yields 0. |
| Maximum.MaxPermutation | src/Algorithms/Max.php:19 | Any permutation of a collection (equal multisets) yields the same result. |

## Left out

- Pattern matching (`match`, `patternMatch`, `letIn`, `getNumConditions` and
  the `eval*Pattern` functions). It is not part of this model: its
  implementation is not among the modelled files.
- PHP array keys. `array_merge`, `flatten` and `mapDeep` are modelled on
  lists, so string keys and renumbering are not modelled.
- `is_callable` on strings that name functions, and on closures stored as
  objects. Only the explicit `Fn` variant counts as callable. A callable's
  behaviour is the parameter `invoke: (nat, Val) -> Val` of `Ap`.
- The functions passed to `bind`, `map` and `flatMap` are Dafny functions.
  A `bind` function that returns some other `Monadic` than a `ListMonad`,
  and side effects inside callbacks, are not modelled.
- The `Monadic` interface, `new static` late binding and the `const of`
  string callable.
- PHP floats, loose comparison and 64-bit integer limits. `max` compares
  only integers and returns 0 or one of its inputs, so it cannot overflow.
- `isArrayOf` on an empty array. It is modelled as "every element is an
  integer", which holds for the empty collection. The fold then returns its
  seed 0, the same result as the `identity(0)` branch.
- The dead branches of the fold steps: `Maximum.Larger` on a non-integer,
  and `ListMonads.ApplyDeep` on a non-callable. The guards before them keep
  such values out, and the model gives them a neutral value.

/**
 * The PHP values that travel through the list monad and through `max`.
 *
 * A PHP array is modelled as a plain sequence of values: the model keeps the
 * order of the elements and drops their keys (every array the core builds is a
 * list, so its keys are 0, 1, 2, ...).
 */
module Values {

  /** A PHP value. A callable is named by an index; what calling it does is
      supplied separately, as an interpretation `(nat, Val) -> Val`, wherever a
      callable stored inside a value is called. */
  datatype Val =
    | Int(i: int)
    | Float(x: real)
    | Str(s: string)
    | Fn(id: nat)
    | Arr(items: seq<Val>)

  /** `is_callable($v)`: only the `Fn` variant counts as callable. */
  predicate IsCallable(v: Val) {
    v.Fn?
  }

  /** A sequence with no nested array in it: the shape `flatten` produces. */
  predicate Flat(s: seq<Val>) {
    forall k :: 0 <= k < |s| ==> !s[k].Arr?
  }
}

/**
 * `max`: the largest integer of a collection, found by a left fold seeded with
 * 0. A collection that is not made of integers only yields 0.
 */
module Maximum {
  import opened Values
  import Algorithms

  /** The fold step `$val > $acc ? $val : $acc`. Only integers reach it (`max`
      folds only all-integer collections), so a non-integer keeps the accumulator. */
  function Larger(acc: int, v: Val): int {
    match v
    case Int(n) => if n > acc then n else acc
    case _ => acc
  }

  /** No integer of `s` exceeds `r`. */
  predicate Bounds(s: seq<Val>, r: int) {
    forall k :: 0 <= k < |s| && s[k].Int? ==> s[k].i <= r
  }

  /** `r` is the seed 0 or one of the integers of `s`. */
  predicate SeedOrElement(s: seq<Val>, r: int) {
    r == 0 || exists k :: 0 <= k < |s| && s[k] == Int(r)
  }

  /** The fold from any seed: at least the seed, bounds every element, and is
      the seed or an element. */
  lemma {:induction false} FoldLarger(s: seq<Val>, acc: int)
    ensures Algorithms.Fold(Larger, s, acc) >= acc
    ensures Bounds(s, Algorithms.Fold(Larger, s, acc))
    ensures var r := Algorithms.Fold(Larger, s, acc);
            r == acc || exists k :: 0 <= k < |s| && s[k] == Int(r)
    decreases |s|
  {
    if s != [] {
      var acc' := Larger(acc, s[0]);
      FoldLarger(s[1..], acc');
      var r := Algorithms.Fold(Larger, s, acc);
      assert r == Algorithms.Fold(Larger, s[1..], acc');
      forall k | 1 <= k < |s| && s[k].Int? ensures s[k].i <= r {
        assert s[1..][k - 1] == s[k];
      }
      if r != acc' {
        var j :| 0 <= j < |s[1..]| && s[1..][j] == Int(r);
        assert s[j + 1] == Int(r);
      }
    }
  }

  /** `max`: when every element is an integer, the left fold of `Larger` seeded
      with 0; otherwise `identity(0)`. */
  function Max(s: seq<Val>): (r: int)
    ensures r >= 0
    ensures !Algorithms.AllInts(s) ==> r == 0
    ensures Algorithms.AllInts(s) ==> Bounds(s, r) && SeedOrElement(s, r)
  {
    if Algorithms.AllInts(s) then
      FoldLarger(s, 0);
      Algorithms.Fold(Larger, s, 0)
    else
      0
  }

  /** The contract of `Max` determines its value: at most one number is
      non-negative, bounds every element and is 0 or an element. */
  lemma MaxUnique(s: seq<Val>, a: int, b: int)
    requires a >= 0 && Bounds(s, a) && SeedOrElement(s, a)
    requires b >= 0 && Bounds(s, b) && SeedOrElement(s, b)
    ensures a == b
  {
  }

  /** The empty collection yields 0. */
  lemma MaxEmpty()
    ensures Max([]) == 0
  {
  }

  /** A collection whose integers are all at most 0 yields 0. */
  lemma MaxNonPositive(s: seq<Val>)
    requires forall k :: 0 <= k < |s| && s[k].Int? ==> s[k].i <= 0
    ensures Max(s) == 0
  {
  }

  /** The order of the elements does not matter: any permutation of a
      collection has the same maximum. */
  lemma MaxPermutation(a: seq<Val>, b: seq<Val>)
    requires multiset(a) == multiset(b)
    ensures Max(a) == Max(b)
  {
    forall k | 0 <= k < |a| ensures a[k] in b {
      assert a[k] in multiset(a);
    }
    forall k | 0 <= k < |b| ensures b[k] in a {
      assert b[k] in multiset(b);
    }
    if Algorithms.AllInts(a) && Algorithms.AllInts(b) {
      var r := Max(a);
      assert Bounds(b, r) by {
        forall k | 0 <= k < |b| && b[k].Int? ensures b[k].i <= r {
          var j :| 0 <= j < |a| && a[j] == b[k];
        }
      }
      assert SeedOrElement(b, r) by {
        if r != 0 {
          var j :| 0 <= j < |a| && a[j] == Int(r);
          var k :| 0 <= k < |b| && b[k] == a[j];
        }
      }
      MaxUnique(b, r, Max(b));
    }
  }
}

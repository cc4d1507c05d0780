/**
 * `std::cmp::Ordering` and the lexicographic comparison of two sequences that
 * `Iterator::cmp` performs, parameterised by the comparison of one pair of items.
 */
module Order {

  datatype Ordering = Less | Equal | Greater {
    /** `Ordering::reverse` */
    function Reverse(): Ordering {
      match this
      case Less => Greater
      case Equal => Equal
      case Greater => Less
    }

    /** `Ordering::then_with`: `this` unless it is Equal. */
    function Then(next: Ordering): Ordering {
      if this == Equal then next else this
    }
  }

  /** `Ord::cmp` on integers (`usize` lengths). */
  function IntCmp(a: int, b: int): (r: Ordering)
    ensures r == Equal <==> a == b
    ensures r == Less <==> a < b
  {
    if a < b then Less else if a == b then Equal else Greater
  }

  /** `Ord::cmp` on chars: code point order. */
  function CharOrder(a: char, b: char): (r: Ordering)
    ensures r == Equal <==> a == b
    ensures r == Less <==> a < b
  {
    IntCmp(a as int, b as int)
  }

  /**
   * `Iterator::cmp` with the item comparison `g`: the first pair that is not Equal
   * decides; otherwise the side that runs out first is Less.
   */
  function LexBy<T>(l: seq<T>, r: seq<T>, g: (T, T) -> Ordering): Ordering
    decreases |l|
  {
    if l == [] && r == [] then Equal
    else if l == [] then Less
    else if r == [] then Greater
    else g(l[0], r[0]).Then(LexBy(l[1..], r[1..], g))
  }

  /** `Ord::cmp` on `str` (byte order of UTF-8, which is code point order) and on char iterators. */
  function SeqCmp(a: seq<char>, b: seq<char>): Ordering {
    LexBy(a, b, CharOrder)
  }

  /**
   * Reference definition of LexBy: with `k` the length of the longest common prefix
   * on which `g` says Equal, the result is `g` at `k`, or the comparison of the lengths.
   */
  lemma {:induction false} LexByFirstDifference<T>(l: seq<T>, r: seq<T>, g: (T, T) -> Ordering, k: nat)
    requires k <= |l| && k <= |r|
    requires forall i :: 0 <= i < k ==> g(l[i], r[i]) == Equal
    requires k == |l| || k == |r| || g(l[k], r[k]) != Equal
    ensures LexBy(l, r, g) == if k < |l| && k < |r| then g(l[k], r[k]) else IntCmp(|l|, |r|)
    decreases k
  {
    if k > 0 {
      assert g(l[0], r[0]) == Equal;
      LexByFirstDifference(l[1..], r[1..], g, k - 1);
    }
  }

  /** Equal exactly when both have the same length and every pair is Equal. */
  lemma {:induction false} LexByEqualIffPairwise<T>(l: seq<T>, r: seq<T>, g: (T, T) -> Ordering)
    ensures LexBy(l, r, g) == Equal <==> |l| == |r| && forall i :: 0 <= i < |l| ==> g(l[i], r[i]) == Equal
    decreases |l|
  {
    if l != [] && r != [] {
      LexByEqualIffPairwise(l[1..], r[1..], g);
      if g(l[0], r[0]) == Equal && |l| == |r| && (forall i :: 0 <= i < |l| - 1 ==> g(l[1..][i], r[1..][i]) == Equal) {
        forall i | 0 <= i < |l| ensures g(l[i], r[i]) == Equal {
          if i > 0 { assert g(l[1..][i - 1], r[1..][i - 1]) == Equal; }
        }
      }
    }
  }

  /** Swapping the operands reverses the result when `g` is antisymmetric. */
  lemma {:induction false} LexByAntisymmetric<T>(l: seq<T>, r: seq<T>, g: (T, T) -> Ordering)
    requires forall x, y :: g(y, x) == g(x, y).Reverse()
    ensures LexBy(r, l, g) == LexBy(l, r, g).Reverse()
    decreases |l|
  {
    if l != [] && r != [] {
      LexByAntisymmetric(l[1..], r[1..], g);
      assert g(r[0], l[0]) == g(l[0], r[0]).Reverse();
    }
  }

  /** A sequence compares Equal to itself when `g` is reflexive. */
  lemma {:induction false} LexByReflexive<T>(l: seq<T>, g: (T, T) -> Ordering)
    requires forall x :: g(x, x) == Equal
    ensures LexBy(l, l, g) == Equal
    decreases |l|
  {
    if l != [] {
      LexByReflexive(l[1..], g);
    }
  }

  lemma SeqCmpEqualIff(a: seq<char>, b: seq<char>)
    ensures SeqCmp(a, b) == Equal <==> a == b
  {
    LexByEqualIffPairwise(a, b, CharOrder);
    if |a| == |b| && forall i :: 0 <= i < |a| ==> CharOrder(a[i], b[i]) == Equal {
      assert a == b;
    }
  }

  lemma SeqCmpAntisymmetric(a: seq<char>, b: seq<char>)
    ensures SeqCmp(b, a) == SeqCmp(a, b).Reverse()
  {
    LexByAntisymmetric(a, b, CharOrder);
  }
}

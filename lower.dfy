/**
 * `Lower`: a string wrapper whose equality, ordering and hash see only the string's
 * per-char lowercase expansion.
 */
module LowerWrapper {
  import opened Unicode
  import opened Order
  import SeqUtil
  import opened CmpExt

  datatype Lower = Lower(s: seq<char>)

  /** `iter`: `chars().flat_map(char::to_lowercase)`. */
  function Iter(u: CharData, a: Lower): seq<char> {
    LowerAll(u, a.s)
  }

  /** `PartialEq for Lower`: `Iterator::eq` of the two lowered streams. */
  predicate Eq(u: CharData, a: Lower, b: Lower) {
    Iter(u, a) == Iter(u, b)
  }

  /** `Ord for Lower`: `Iterator::cmp` of the two lowered streams. */
  function Cmp(u: CharData, a: Lower, b: Lower): Ordering {
    SeqCmp(Iter(u, a), Iter(u, b))
  }

  /** `PartialEq<str>` / `PartialEq<&str>`: compare against `Lower` of the string. */
  predicate EqStr(u: CharData, a: Lower, s: seq<char>) {
    Eq(u, a, Lower(s))
  }

  /** `PartialOrd<str>` / `PartialOrd<&str>`: order against `Lower` of the string. */
  function CmpStr(u: CharData, a: Lower, s: seq<char>): Ordering {
    Cmp(u, a, Lower(s))
  }

  /** `Hash for Lower`: the chars fed to the hasher, in order. */
  function HashInput(u: CharData, a: Lower): seq<char> {
    Iter(u, a)
  }

  /** `eq` holds exactly when `cmp` says Equal. */
  lemma EqIffCmpEqual(u: CharData, a: Lower, b: Lower)
    ensures Eq(u, a, b) <==> Cmp(u, a, b) == Equal
  {
    SeqCmpEqualIff(Iter(u, a), Iter(u, b));
  }

  lemma CmpAntisymmetric(u: CharData, a: Lower, b: Lower)
    ensures Cmp(u, b, a) == Cmp(u, a, b).Reverse()
  {
    SeqCmpAntisymmetric(Iter(u, a), Iter(u, b));
  }

  /** Equal values feed the hasher the same chars, as `Hash` must agree with `Eq`. */
  lemma EqualHashInput(u: CharData, a: Lower, b: Lower)
    requires Eq(u, a, b)
    ensures HashInput(u, a) == HashInput(u, b)
  {
  }

  /** Strings that are `eq_ci` char by char are equal as `Lower` values. */
  lemma {:induction false} PairwiseCiGivesEq(u: CharData, a: seq<char>, b: seq<char>)
    requires Pairwise(u, Ci, a, b)
    ensures Eq(u, Lower(a), Lower(b))
    decreases |a|
  {
    if a != [] {
      assert Pairwise(u, Ci, a[1..], b[1..]) by {
        forall i | 0 <= i < |a| - 1 ensures CharEq(u, Ci, a[1..][i], b[1..][i]) {
          assert a[1..][i] == a[i + 1] && b[1..][i] == b[i + 1];
        }
      }
      PairwiseCiGivesEq(u, a[1..], b[1..]);
      assert CharEq(u, Ci, a[0], b[0]);
    }
  }

  /** The tests: `Lower("AbC") == Lower("abc")` and `Lower("AbC") == "abc"`. */
  lemma Example(u: CharData)
    requires AsciiConforming(u)
    ensures Eq(u, Lower("AbC"), Lower("abc"))
    ensures EqStr(u, Lower("AbC"), "abc")
  {
    assert Pairwise(u, Ci, "AbC", "abc") by {
      assert u.toLower('A') == ['a'] && u.toLower('C') == ['c'];
    }
    PairwiseCiGivesEq(u, "AbC", "abc");
  }
}

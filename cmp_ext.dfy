/**
 * `EqExt` / `OrdExt`: accent-insensitive (`ai`), accent- and case-insensitive (`ai_ci`)
 * and case-insensitive (`ci`) equality and ordering of chars and strings. Strings are
 * compared char by char with the char-level relation of the same variant.
 */
module CmpExt {
  import opened Unicode
  import opened Order
  import SeqUtil

  datatype Variant = Ai | AiCi | Ci

  /** `s.chars().flat_map(char::to_lowercase)` */
  function LowerAll(u: CharData, s: seq<char>): seq<char> {
    SeqUtil.FlatMap(u.toLower, s)
  }

  /** Char `eq_ai`, `eq_ai_ci`, `eq_ci`: a fast path for identical chars, then the comparison of the mapped forms. */
  predicate CharEq(u: CharData, v: Variant, a: char, b: char) {
    match v
    case Ai => a == b || u.unidecode(a) == u.unidecode(b)
    case AiCi =>
      a == b || u.unidecode(a) == u.unidecode(b)
      || LowerAll(u, u.unidecode(a)) == LowerAll(u, u.unidecode(b))
    case Ci => a == b || u.toLower(a) == u.toLower(b)
  }

  /** Char `cmp_ai`, `cmp_ai_ci`, `cmp_ci`. */
  function CharCmp(u: CharData, v: Variant, a: char, b: char): Ordering {
    match v
    case Ai => SeqCmp(u.unidecode(a), u.unidecode(b))
    case AiCi => SeqCmp(LowerAll(u, u.unidecode(a)), LowerAll(u, u.unidecode(b)))
    case Ci => SeqCmp(u.toLower(a), u.toLower(b))
  }

  /** Char `eq_x` holds exactly when `cmp_x` says Equal: the fast paths change nothing. */
  lemma CharEqIffCmpEqual(u: CharData, v: Variant, a: char, b: char)
    ensures CharEq(u, v, a, b) <==> CharCmp(u, v, a, b) == Equal
  {
    match v
    case Ai => SeqCmpEqualIff(u.unidecode(a), u.unidecode(b));
    case AiCi => SeqCmpEqualIff(LowerAll(u, u.unidecode(a)), LowerAll(u, u.unidecode(b)));
    case Ci => SeqCmpEqualIff(u.toLower(a), u.toLower(b));
  }

  /** Every char `eq_x` itself, and `eq_x` does not depend on the order of its operands. */
  lemma CharEqReflexiveSymmetric(u: CharData, v: Variant, a: char, b: char)
    ensures CharEq(u, v, a, a)
    ensures CharEq(u, v, a, b) == CharEq(u, v, b, a)
  {
  }

  /** Swapping two chars reverses their order. */
  lemma CharCmpAntisymmetric(u: CharData, v: Variant, a: char, b: char)
    ensures CharCmp(u, v, b, a) == CharCmp(u, v, a, b).Reverse()
  {
    match v
    case Ai => SeqCmpAntisymmetric(u.unidecode(a), u.unidecode(b));
    case AiCi => SeqCmpAntisymmetric(LowerAll(u, u.unidecode(a)), LowerAll(u, u.unidecode(b)));
    case Ci => SeqCmpAntisymmetric(u.toLower(a), u.toLower(b));
  }

  /** Same char count and the char relation pairwise. */
  predicate Pairwise(u: CharData, v: Variant, a: seq<char>, b: seq<char>) {
    |a| == |b| && forall i :: 0 <= i < |a| ==> CharEq(u, v, a[i], b[i])
  }

  /** `eq_chars`: walks both char iterators in step; false on the first mismatch or length difference. */
  method EqChars(u: CharData, v: Variant, l: seq<char>, r: seq<char>) returns (b: bool)
    ensures b == Pairwise(u, v, l, r)
  {
    var i := 0;
    while true
      invariant i <= |l| && i <= |r|
      invariant forall k :: 0 <= k < i ==> CharEq(u, v, l[k], r[k])
      decreases |l| - i
    {
      if i < |l| && i < |r| {
        if !CharEq(u, v, l[i], r[i]) {
          return false;
        }
        i := i + 1;
      } else {
        return i == |l| && i == |r|;
      }
    }
  }

  /** String `eq_x`: identical strings, or pairwise `eq_x` of their chars. */
  predicate StrEq(u: CharData, v: Variant, a: seq<char>, b: seq<char>) {
    a == b || Pairwise(u, v, a, b)
  }

  /** String `cmp_x`: `ord_chars` with the char comparison of the variant. */
  function StrCmp(u: CharData, v: Variant, a: seq<char>, b: seq<char>): Ordering {
    LexBy(a, b, (x, y) => CharCmp(u, v, x, y))
  }

  /** `ord_chars`: the first pair that is not Equal decides; otherwise the shorter side is Less. */
  method OrdChars(u: CharData, v: Variant, l: seq<char>, r: seq<char>) returns (o: Ordering)
    ensures o == StrCmp(u, v, l, r)
  {
    var g := (x, y) => CharCmp(u, v, x, y);
    var i := 0;
    while true
      invariant i <= |l| && i <= |r|
      invariant LexBy(l[i..], r[i..], g) == StrCmp(u, v, l, r)
      decreases |l| - i
    {
      if i < |l| && i < |r| {
        assert LexBy(l[i..], r[i..], g) == g(l[i], r[i]).Then(LexBy(l[i..][1..], r[i..][1..], g));
        assert l[i..][1..] == l[i + 1..] && r[i..][1..] == r[i + 1..];
        var c := CharCmp(u, v, l[i], r[i]);
        if c != Equal {
          return c;
        }
        i := i + 1;
      } else if i < |r| {
        return Less;
      } else if i < |l| {
        return Greater;
      } else {
        return Equal;
      }
    }
  }

  /** Identical strings pass the pairwise check too, so the `self == r` fast path is only an optimisation. */
  lemma FastPathRedundant(u: CharData, v: Variant, a: seq<char>)
    ensures Pairwise(u, v, a, a)
  {
  }

  /** Every string `eq_x` itself, and string `eq_x` does not depend on the order of its operands. */
  lemma StrEqReflexiveSymmetric(u: CharData, v: Variant, a: seq<char>, b: seq<char>)
    ensures StrEq(u, v, a, a)
    ensures StrEq(u, v, a, b) == StrEq(u, v, b, a)
  {
    forall i | 0 <= i < |a| && i < |b| ensures CharEq(u, v, a[i], b[i]) == CharEq(u, v, b[i], a[i]) {
      CharEqReflexiveSymmetric(u, v, a[i], b[i]);
    }
  }

  /** Strings whose char counts differ are never equal, under any variant. */
  lemma LengthMismatch(u: CharData, v: Variant, a: seq<char>, b: seq<char>)
    requires |a| != |b|
    ensures !StrEq(u, v, a, b)
  {
  }

  /** String `eq_x(a, b)` holds exactly when `cmp_x(a, b)` is Equal. */
  lemma StrEqIffCmpEqual(u: CharData, v: Variant, a: seq<char>, b: seq<char>)
    ensures StrEq(u, v, a, b) <==> StrCmp(u, v, a, b) == Equal
  {
    var g := (x, y) => CharCmp(u, v, x, y);
    LexByEqualIffPairwise(a, b, g);
    forall i | 0 <= i < |a| && i < |b|
      ensures CharEq(u, v, a[i], b[i]) <==> g(a[i], b[i]) == Equal
    {
      CharEqIffCmpEqual(u, v, a[i], b[i]);
    }
  }

  /** Swapping the strings reverses the order. */
  lemma StrCmpAntisymmetric(u: CharData, v: Variant, a: seq<char>, b: seq<char>)
    ensures StrCmp(u, v, b, a) == StrCmp(u, v, a, b).Reverse()
  {
    var g := (x, y) => CharCmp(u, v, x, y);
    forall x, y ensures g(y, x) == g(x, y).Reverse() {
      CharCmpAntisymmetric(u, v, x, y);
    }
    LexByAntisymmetric(a, b, g);
  }

  /** The char tests: `'a'.eq_ai('à')`, `!'a'.eq_ai('A')`, `'A'.eq_ci('a')`, `'A'.eq_ai_ci('À')`. */
  lemma CharExamples(u: CharData)
    requires AsciiConforming(u)
    requires u.unidecode('à') == ['a'] && u.unidecode('À') == ['A']
    ensures CharEq(u, Ai, 'a', 'à') && !CharEq(u, Ai, 'a', 'A') && !CharEq(u, Ai, 'a', 'b')
    ensures CharEq(u, Ci, 'A', 'a') && CharEq(u, Ci, 'a', 'A') && !CharEq(u, Ci, 'a', 'b')
    ensures CharEq(u, AiCi, 'A', 'À') && CharEq(u, AiCi, 'À', 'a') && !CharEq(u, AiCi, 'a', 'b')
  {
    assert u.unidecode('a') == ['a'] && u.unidecode('A') == ['A'] && u.unidecode('b') == ['b'];
    assert u.toLower('a') == ['a'] && u.toLower('A') == ['a'] && u.toLower('b') == ['b'];
    assert LowerAll(u, ['A']) == ['a'] && LowerAll(u, ['a']) == ['a'] && LowerAll(u, ['b']) == ['b'];
  }

  /** The string tests: `"abc".eq_x("abca")` is false for every variant; the positive cases of each variant. */
  lemma StrExamples(u: CharData, v: Variant)
    requires AsciiConforming(u)
    requires u.unidecode('à') == ['a'] && u.unidecode('À') == ['A']
    ensures !StrEq(u, v, "abc", "abca")
    ensures StrEq(u, Ci, "abc", "ABC")
    ensures StrEq(u, Ai, "abc", "àbc")
    ensures StrEq(u, AiCi, "abc", "ÀBc")
  {
    LengthMismatch(u, v, "abc", "abca");
    assert u.toLower('a') == u.toLower('A') && u.toLower('b') == u.toLower('B') && u.toLower('c') == u.toLower('C');
    assert u.unidecode('a') == ['a'] && u.unidecode('A') == ['A'] && u.unidecode('B') == ['B'] && u.unidecode('b') == ['b'];
    assert LowerAll(u, ['A']) == ['a'] && LowerAll(u, ['a']) == ['a'];
    assert LowerAll(u, ['B']) == ['b'] && LowerAll(u, ['b']) == ['b'];
  }
}

/**
 * `StrUtilsExt`: prefix, suffix and substring search under the char relations of
 * `CmpExt` (accent- and/or case-insensitive), char truncation, and transliteration
 * of a whole string.
 */
module StrUtils {
  import opened Wrappers
  import opened Unicode
  import SeqUtil
  import Utf8
  import opened CmpExt

  datatype SearchResult = Found | NotFoundFinal | NotFoundContinue

  /** `pat` matches the leading chars of `src`, char by char, under the variant's relation. */
  predicate HasPrefix(u: CharData, v: Variant, src: seq<char>, pat: seq<char>) {
    |pat| <= |src| && Pairwise(u, v, src[..|pat|], pat)
  }

  /** `pat` matches the trailing chars of `src`, char by char. */
  predicate HasSuffix(u: CharData, v: Variant, src: seq<char>, pat: seq<char>) {
    |pat| <= |src| && Pairwise(u, v, src[|src| - |pat|..], pat)
  }

  /**
   * `search`: walks `src` and `pat` in step. Found once `pat` is exhausted (so an empty
   * pattern always matches), NotFoundFinal when `src` runs out first with every pair
   * matching, NotFoundContinue at the first pair that does not match.
   */
  method Search(u: CharData, v: Variant, src: seq<char>, pat: seq<char>) returns (r: SearchResult)
    ensures r == Found <==> HasPrefix(u, v, src, pat)
    ensures r == NotFoundFinal <==> |src| < |pat| && Pairwise(u, v, src, pat[..|src|])
  {
    var i := 0;
    while true
      invariant i <= |src| && i <= |pat|
      invariant forall k :: 0 <= k < i ==> CharEq(u, v, src[k], pat[k])
      decreases |pat| - i
    {
      if i == |pat| {
        return Found;
      } else if i == |src| {
        return NotFoundFinal;
      } else if !CharEq(u, v, src[i], pat[i]) {
        return NotFoundContinue;
      }
      i := i + 1;
    }
  }

  /** `starts_with_x` */
  method StartsWith(u: CharData, v: Variant, src: seq<char>, pat: seq<char>) returns (b: bool)
    ensures b == HasPrefix(u, v, src, pat)
  {
    var r := Search(u, v, src, pat);
    b := r == Found;
  }

  /** The last `n` chars of `src`, reversed, are the first `n` chars of `src` reversed. */
  lemma ReversedTail(src: seq<char>, n: nat)
    requires n <= |src|
    ensures SeqUtil.Reverse(src)[..n] == SeqUtil.Reverse(src[|src| - n..])
  {
    var rs, tail := SeqUtil.Reverse(src), src[|src| - n..];
    var rt := SeqUtil.Reverse(tail);
    assert |rs[..n]| == |rt| == n;
    forall i | 0 <= i < n ensures rs[..n][i] == rt[i] {
      var k := |src| - 1 - i;
      assert rs[..n][i] == rs[i] == src[k];
      assert rt[i] == tail[n - 1 - i];
      assert tail[n - 1 - i] == src[k];
    }
  }

  /** Two strings match pairwise exactly when their reversals do. */
  lemma PairwiseReversed(u: CharData, v: Variant, a: seq<char>, b: seq<char>)
    requires |a| == |b|
    ensures Pairwise(u, v, SeqUtil.Reverse(a), SeqUtil.Reverse(b)) <==> Pairwise(u, v, a, b)
  {
    var ra, rb := SeqUtil.Reverse(a), SeqUtil.Reverse(b);
    var n := |a|;
    if Pairwise(u, v, ra, rb) {
      forall i | 0 <= i < n ensures CharEq(u, v, a[i], b[i]) {
        assert ra[n - 1 - i] == a[i] && rb[n - 1 - i] == b[i];
      }
    }
    if Pairwise(u, v, a, b) {
      forall i | 0 <= i < n ensures CharEq(u, v, ra[i], rb[i]) {
        assert ra[i] == a[n - 1 - i] && rb[i] == b[n - 1 - i];
      }
    }
  }

  /** A prefix match of the reversed strings is a suffix match of the strings. */
  lemma ReversedPrefixIsSuffix(u: CharData, v: Variant, src: seq<char>, pat: seq<char>)
    ensures HasPrefix(u, v, SeqUtil.Reverse(src), SeqUtil.Reverse(pat)) <==> HasSuffix(u, v, src, pat)
  {
    if |pat| <= |src| {
      ReversedTail(src, |pat|);
      PairwiseReversed(u, v, src[|src| - |pat|..], pat);
    }
  }

  /** `ends_with_x`: `search` over both char sequences reversed. */
  method EndsWith(u: CharData, v: Variant, src: seq<char>, pat: seq<char>) returns (b: bool)
    ensures b == HasSuffix(u, v, src, pat)
  {
    var r := Search(u, v, SeqUtil.Reverse(src), SeqUtil.Reverse(pat));
    ReversedPrefixIsSuffix(u, v, src, pat);
    b := r == Found;
  }

  /**
   * The char position of the first match: the least `i < |src|` at which `pat` matches a
   * prefix of `src[i..]`. An empty source has no position, so not even an empty pattern
   * is found in it.
   */
  function FirstMatch(u: CharData, v: Variant, src: seq<char>, pat: seq<char>): (r: Option<nat>)
    ensures r.Some? ==> r.value < |src| && HasPrefix(u, v, src[r.value..], pat)
    ensures r.Some? ==> forall j :: 0 <= j < r.value ==> !HasPrefix(u, v, src[j..], pat)
    ensures r.None? ==> forall j :: 0 <= j < |src| ==> !HasPrefix(u, v, src[j..], pat)
    decreases |src|
  {
    if src == [] then None
    else if HasPrefix(u, v, src, pat) then (assert src[0..] == src; Some(0))
    else
      match FirstMatch(u, v, src[1..], pat)
      case None =>
        assert forall j :: 0 < j < |src| ==> src[j..] == src[1..][j - 1..];
        None
      case Some(k) =>
        assert forall j :: 0 < j <= k + 1 ==> src[j..] == src[1..][j - 1..];
        Some(k + 1)
  }

  /** A position where `pat` matches, with no match before it, is the first match. */
  lemma FirstMatchAt(u: CharData, v: Variant, src: seq<char>, pat: seq<char>, k: nat)
    requires k < |src| && HasPrefix(u, v, src[k..], pat)
    requires forall j :: 0 <= j < k ==> !HasPrefix(u, v, src[j..], pat)
    ensures FirstMatch(u, v, src, pat) == Some(k)
  {
  }

  /** With a match at no position there is no first match. */
  lemma FirstMatchNone(u: CharData, v: Variant, src: seq<char>, pat: seq<char>)
    requires forall j :: 0 <= j < |src| ==> !HasPrefix(u, v, src[j..], pat)
    ensures FirstMatch(u, v, src, pat) == None
  {
  }

  /** The byte length of a char-prefix grows by the byte length of the next char. */
  lemma LengthSnoc(s: seq<char>, i: nat)
    requires i < |s|
    ensures Utf8.Length(s[..i + 1]) == Utf8.Length(s[..i]) + Utf8.CharLength(s[i])
  {
    assert s[..i + 1] == s[..i] + [s[i]];
    Utf8.LengthAppend(s[..i], [s[i]]);
  }

  /**
   * `find_str`: tries `search` at every char boundary of `src` in order and returns the
   * byte offset of the first Found; stops with None on the first NotFoundFinal.
   */
  method FindStr(u: CharData, v: Variant, src: seq<char>, pat: seq<char>) returns (r: Option<nat>)
    ensures r == match FirstMatch(u, v, src, pat)
                 case None => None
                 case Some(i) => Some(Utf8.Length(src[..i]))
  {
    var i := 0;
    var index := 0;
    while i < |src|
      invariant i <= |src| && index == Utf8.Length(src[..i])
      invariant forall j :: 0 <= j < i ==> !HasPrefix(u, v, src[j..], pat)
    {
      var res := Search(u, v, src[i..], pat);
      match res
      case Found =>
        FirstMatchAt(u, v, src, pat, i);
        return Some(index);
      case NotFoundFinal =>
        assert forall j :: i <= j < |src| ==> |src[j..]| < |pat|;
        FirstMatchNone(u, v, src, pat);
        return None;
      case NotFoundContinue =>
        LengthSnoc(src, i);
        index := index + Utf8.CharLength(src[i]);
        i := i + 1;
    }
    FirstMatchNone(u, v, src, pat);
    r := None;
  }

  /** `contains_x`: `find_x(..).is_some()`. */
  method Contains(u: CharData, v: Variant, src: seq<char>, pat: seq<char>) returns (b: bool)
    ensures b <==> exists i :: 0 <= i < |src| && HasPrefix(u, v, src[i..], pat)
  {
    var r := FindStr(u, v, src, pat);
    b := r.Some?;
    if b {
      var i := FirstMatch(u, v, src, pat).value;
      assert HasPrefix(u, v, src[i..], pat);
    }
  }

  /** `truncate_chars`: the first `n` chars, or the whole string when it has no more. */
  function TruncateChars(s: seq<char>, n: nat): (r: seq<char>)
    ensures |r| == if |s| <= n then |s| else n
    ensures r <= s
  {
    if |s| <= n then s else s[..n]
  }

  lemma TruncateIdempotent(s: seq<char>, n: nat)
    ensures TruncateChars(TruncateChars(s, n), n) == TruncateChars(s, n)
  {
  }

  /** `no_accent`: pushes the transliteration of every char, in order. */
  method NoAccent(u: CharData, src: seq<char>) returns (s: seq<char>)
    ensures s == SeqUtil.FlatMap(u.unidecode, src)
  {
    s := [];
    var i := 0;
    while i < |src|
      invariant i <= |src|
      invariant s == SeqUtil.FlatMap(u.unidecode, src[..i])
    {
      SeqUtil.FlatMapSnoc(u.unidecode, src[..i], src[i]);
      assert src[..i + 1] == src[..i] + [src[i]];
      s := s + u.unidecode(src[i]);
      i := i + 1;
    }
    assert src[..i] == src;
  }

  /** The chars `no_accent_lowercase` (`case_map = toLower`) or `no_accent_uppercase` yield for one source char. */
  function CaseMapped(caseMap: char -> seq<char>, u: CharData, c: char): seq<char> {
    SeqUtil.FlatMap(caseMap, u.unidecode(c))
  }

  /**
   * `no_accent_lowercase` / `no_accent_uppercase`: pushes, one by one, the chars of
   * `chars().flat_map(no_accent).flat_map(case_map)`.
   */
  method NoAccentCaseMapped(caseMap: char -> seq<char>, u: CharData, src: seq<char>) returns (s: seq<char>)
    ensures s == SeqUtil.FlatMap(caseMap, SeqUtil.FlatMap(u.unidecode, src))
  {
    s := [];
    var i := 0;
    while i < |src|
      invariant i <= |src|
      invariant s == SeqUtil.FlatMap(caseMap, SeqUtil.FlatMap(u.unidecode, src[..i]))
    {
      var mapped := CaseMapped(caseMap, u, src[i]);
      ghost var before := s;
      var k := 0;
      while k < |mapped|
        invariant k <= |mapped| && s == before + mapped[..k]
      {
        s := s + [mapped[k]];
        k := k + 1;
      }
      assert mapped[..k] == mapped;
      SeqUtil.FlatMapSnoc(u.unidecode, src[..i], src[i]);
      SeqUtil.FlatMapAppend(caseMap, SeqUtil.FlatMap(u.unidecode, src[..i]), u.unidecode(src[i]));
      assert src[..i + 1] == src[..i] + [src[i]];
      i := i + 1;
    }
    assert src[..i] == src;
  }

  /** `no_accent_lowercase` lowercases the result of `no_accent`. */
  method NoAccentLowercase(u: CharData, src: seq<char>) returns (s: seq<char>)
    ensures s == LowerAll(u, SeqUtil.FlatMap(u.unidecode, src))
  {
    s := NoAccentCaseMapped(u.toLower, u, src);
  }

  /** `no_accent_uppercase` uppercases the result of `no_accent`. */
  method NoAccentUppercase(u: CharData, src: seq<char>) returns (s: seq<char>)
    ensures s == SeqUtil.FlatMap(u.toUpper, SeqUtil.FlatMap(u.unidecode, src))
  {
    s := NoAccentCaseMapped(u.toUpper, u, src);
  }

  /** ASCII text has nothing to transliterate. */
  lemma {:induction false} NoAccentAscii(u: CharData, s: seq<char>)
    requires AsciiConforming(u) && AllAscii(s)
    ensures SeqUtil.FlatMap(u.unidecode, s) == s
  {
    if s != [] {
      NoAccentAscii(u, s[1..]);
      assert u.unidecode(s[0]) == [s[0]];
    }
  }

  /** Transliteration of a char that stands for one ASCII char, between two ASCII strings. */
  lemma NoAccentOneAccent(u: CharData, a: seq<char>, c: char, d: char, b: seq<char>)
    requires AsciiConforming(u) && AllAscii(a) && AllAscii(b) && u.unidecode(c) == [d]
    ensures SeqUtil.FlatMap(u.unidecode, a + [c] + b) == a + [d] + b
  {
    NoAccentAscii(u, a);
    NoAccentAscii(u, b);
    SeqUtil.FlatMapAppend(u.unidecode, a + [c], b);
    SeqUtil.FlatMapSnoc(u.unidecode, a, c);
  }

  /** The doc example: `"Café Arabica".no_accent() == "Cafe Arabica"`. */
  lemma NoAccentExample(u: CharData)
    requires AsciiConforming(u) && u.unidecode('é') == ['e']
    ensures SeqUtil.FlatMap(u.unidecode, "Café Arabica") == "Cafe Arabica"
  {
    NoAccentOneAccent(u, "Caf", 'é', 'e', " Arabica");
    assert "Caf" + ['é'] + " Arabica" == "Café Arabica";
    assert "Caf" + ['e'] + " Arabica" == "Cafe Arabica";
  }

  /** The tests: `"Café".ends_with_ai("fe")` but not `"Café".ends_with_ai("FE")`. */
  lemma EndsWithExample(u: CharData)
    requires AsciiConforming(u) && u.unidecode('é') == ['e']
    ensures HasSuffix(u, Ai, "Café", "fe")
    ensures !HasSuffix(u, Ai, "Café", "FE")
  {
    var tail := "Café"[2..];
    assert tail == ['f', 'é'];
    assert u.unidecode('e') == ['e'] && u.unidecode('f') == ['f'] && u.unidecode('F') == ['F'];
    assert !CharEq(u, Ai, tail[0], "FE"[0]);
  }

  /** At each of the first eight positions of `"Löwe 老虎 Léopard"`, `"Leopard"` does not match. */
  lemma NoEarlierMatch(u: CharData, j: nat)
    requires AsciiConforming(u) && j < 8
    requires u.unidecode('ö') == ['o'] && u.unidecode('老') == "Lao " && u.unidecode('虎') == "Hu "
    ensures !HasPrefix(u, Ai, "Löwe 老虎 Léopard"[j..], "Leopard")
  {
    var s := "Löwe 老虎 Léopard";
    assert s[j..][0] == s[j];
    assert u.unidecode('L') == ['L'] && u.unidecode('e') == ['e'];
    if j == 0 {
      assert s[j..][1] == 'ö';
      assert !CharEq(u, Ai, 'ö', 'e');
    } else {
      assert s[j] in {'ö', 'w', 'e', ' ', '老', '虎'};
      assert u.unidecode(s[j]) != ['L'];
    }
  }

  /** `"Leopard"` matches `"Löwe 老虎 Léopard"` at char 8. */
  lemma MatchAtEight(u: CharData)
    requires AsciiConforming(u) && u.unidecode('é') == ['e']
    ensures HasPrefix(u, Ai, "Löwe 老虎 Léopard"[8..], "Leopard")
  {
    var s := "Löwe 老虎 Léopard";
    assert s[8..][..7] == "Léopard";
    assert u.unidecode('e') == ['e'];
    assert CharEq(u, Ai, 'é', 'e');
  }

  /** The first eight chars of `"Löwe 老虎 Léopard"` take 13 bytes. */
  lemma EightCharsThirteenBytes()
    ensures Utf8.Length("Löwe 老虎 Léopard"[..8]) == 13
  {
    assert "Löwe 老虎 Léopard"[..8] == "Löwe 老虎 ";
  }

  /** The doc example: in `"Löwe 老虎 Léopard"`, `find_ai("Leopard")` is at char 8, byte offset 13. */
  lemma FindExample(u: CharData)
    requires AsciiConforming(u)
    requires u.unidecode('ö') == ['o'] && u.unidecode('é') == ['e']
    requires u.unidecode('老') == "Lao " && u.unidecode('虎') == "Hu "
    ensures FirstMatch(u, Ai, "Löwe 老虎 Léopard", "Leopard") == Some(8)
    ensures Utf8.Length("Löwe 老虎 Léopard"[..8]) == 13
  {
    var s := "Löwe 老虎 Léopard";
    var p := "Leopard";
    forall j | 0 <= j < 8 ensures !HasPrefix(u, Ai, s[j..], p) {
      NoEarlierMatch(u, j);
    }
    MatchAtEight(u);
    FirstMatchAt(u, Ai, s, p, 8);
    EightCharsThirteenBytes();
  }
}

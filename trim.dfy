/** `str::trim`: removal of leading and trailing `char::is_whitespace` characters. */
module Trimming {
  import opened Unicode
  import SeqUtil
  import Utf8

  /** Number of leading whitespace characters. */
  function LeadingSpace(u: CharData, s: seq<char>): (n: nat)
    ensures n <= |s|
    ensures forall k :: 0 <= k < n ==> u.isWhitespace(s[k])
    ensures n < |s| ==> !u.isWhitespace(s[n])
  {
    SeqUtil.FirstIndex(c => !u.isWhitespace(c), s)
  }

  /** Number of trailing whitespace characters. */
  function TrailingSpace(u: CharData, s: seq<char>): (n: nat)
    ensures n <= |s|
    ensures forall k :: |s| - n <= k < |s| ==> u.isWhitespace(s[k])
    ensures n < |s| ==> !u.isWhitespace(s[|s| - 1 - n])
  {
    if s == [] || !u.isWhitespace(s[|s| - 1]) then 0
    else 1 + TrailingSpace(u, s[..|s| - 1])
  }

  /**
   * `str::trim`: the infix of `s` left when all leading and trailing whitespace is
   * removed. Only whitespace is removed, and what remains starts and ends with a
   * non-whitespace character.
   */
  function Trim(u: CharData, s: seq<char>): (r: seq<char>)
    ensures exists i, j :: 0 <= i <= j <= |s| && r == s[i..j] && AllSpace(u, s[..i]) && AllSpace(u, s[j..])
    ensures r != [] ==> !u.isWhitespace(r[0]) && !u.isWhitespace(r[|r| - 1])
  {
    var lead := LeadingSpace(u, s);
    if lead == |s| then
      assert s[..|s|] == s && s[|s|..] == [];
      []
    else
      var trail := TrailingSpace(u, s);
      assert s[..lead] == s[..lead] && s[|s| - trail..] == s[|s| - trail..];
      s[lead..|s| - trail]
  }

  predicate AllSpace(u: CharData, s: seq<char>) {
    forall k :: 0 <= k < |s| ==> u.isWhitespace(s[k])
  }

  /** Trim gives the empty string exactly for strings made only of whitespace. */
  lemma TrimEmptyIff(u: CharData, s: seq<char>)
    ensures Trim(u, s) == [] <==> AllSpace(u, s)
  {
  }

  /** A string already without surrounding whitespace is left unchanged. */
  lemma TrimNoSpaceAtEnds(u: CharData, s: seq<char>)
    requires s != [] ==> !u.isWhitespace(s[0]) && !u.isWhitespace(s[|s| - 1])
    ensures Trim(u, s) == s
  {
    if s != [] {
      assert LeadingSpace(u, s) == 0;
      assert TrailingSpace(u, s) == 0;
    }
  }

  /** Leading whitespace before a non-whitespace char is removed, and nothing else when the last char is not whitespace. */
  lemma TrimLeadingSpace(u: CharData, s: seq<char>, k: nat)
    requires k < |s| && AllSpace(u, s[..k])
    requires !u.isWhitespace(s[k]) && !u.isWhitespace(s[|s| - 1])
    ensures Trim(u, s) == s[k..]
  {
    SeqUtil.FirstIndexUnique(c => !u.isWhitespace(c), s, k);
    assert LeadingSpace(u, s) == k;
    assert TrailingSpace(u, s) == 0;
  }

  /** Whitespace added around a string without surrounding whitespace is all that trimming removes. */
  lemma TrimSurrounded(u: CharData, a: seq<char>, s: seq<char>, b: seq<char>)
    requires AllSpace(u, a) && AllSpace(u, b)
    requires s != [] && !u.isWhitespace(s[0]) && !u.isWhitespace(s[|s| - 1])
    ensures Trim(u, a + s + b) == s
  {
    var t := a + s + b;
    assert t[|a|] == s[0] && t[|a| + |s| - 1] == s[|s| - 1];
    SeqUtil.FirstIndexUnique(c => !u.isWhitespace(c), t, |a|);
    assert LeadingSpace(u, t) == |a|;
    TrailingSpaceOf(u, a + s, b);
    assert (a + s + b)[|a|..|t| - |b|] == s;
  }

  /** Trailing whitespace after a string ending in a non-whitespace char is exactly the added part. */
  lemma {:induction false} TrailingSpaceOf(u: CharData, s: seq<char>, b: seq<char>)
    requires AllSpace(u, b)
    requires s != [] && !u.isWhitespace(s[|s| - 1])
    ensures TrailingSpace(u, s + b) == |b|
    decreases |b|
  {
    if b == [] {
      assert s + b == s;
    } else {
      var b' := b[..|b| - 1];
      assert (s + b)[..|s + b| - 1] == s + b';
      TrailingSpaceOf(u, s, b');
    }
  }

  lemma TrimIdempotent(u: CharData, s: seq<char>)
    ensures Trim(u, Trim(u, s)) == Trim(u, s)
  {
    TrimNoSpaceAtEnds(u, Trim(u, s));
  }

  /**
   * Trimming keeps the byte length exactly when it removes nothing: the test
   * `new.len() != self.len()` detects every change.
   */
  lemma TrimSameLengthIffUnchanged(u: CharData, s: seq<char>)
    ensures Utf8.Length(Trim(u, s)) == Utf8.Length(s) <==> Trim(u, s) == s
  {
    var i, j :| 0 <= i <= j <= |s| && Trim(u, s) == s[i..j] && AllSpace(u, s[..i]) && AllSpace(u, s[j..]);
    assert s == s[..i] + s[i..j] + s[j..];
    Utf8.LengthAppend(s[..i] + s[i..j], s[j..]);
    Utf8.LengthAppend(s[..i], s[i..j]);
    if Trim(u, s) != s {
      assert i > 0 || j < |s|;
      if i > 0 {
        Utf8.CharCountAtMostLength(s[..i]);
      } else {
        Utf8.CharCountAtMostLength(s[j..]);
      }
    }
  }
}

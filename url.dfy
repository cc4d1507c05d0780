/**
 * `validate_accepted_url_chars`: every char of the trimmed input must be an ASCII letter
 * or digit, or one of the 23 punctuation chars that RFC 3986 allows in a URI: the
 * unreserved marks `-._~` (section 2.3), the gen-delims `:/?#[]@` and sub-delims
 * `!$&'()*+,;=` (section 2.2), and `%` for percent-encoding (section 2.1).
 */
module Url {
  import opened Wrappers
  import opened Unicode
  import SeqUtil
  import opened Trimming

  datatype UrlError = InvalidChar(c: char)

  /** The 23 punctuation chars accepted besides ASCII letters and digits. */
  predicate IsUrlPunct(c: char) {
    c == '-' || c == '.' || c == '_' || c == '~'
    || c == ':' || c == '/' || c == '?' || c == '#' || c == '[' || c == ']' || c == '@'
    || c == '!' || c == '$' || c == '&' || c == '\'' || c == '(' || c == ')' || c == '*'
    || c == '+' || c == ',' || c == ';' || c == '='
    || c == '%'
  }

  predicate IsUrlChar(c: char) {
    IsAsciiAlphanumeric(c) || IsUrlPunct(c)
  }

  predicate AllUrlChars(t: seq<char>) {
    forall i :: 0 <= i < |t| ==> IsUrlChar(t[i])
  }

  /** Index of the first char of `t` that is not accepted, or `|t|`. */
  function FirstRejected(t: seq<char>): (k: nat)
    ensures k <= |t|
    ensures forall j :: 0 <= j < k ==> IsUrlChar(t[j])
    ensures k < |t| ==> !IsUrlChar(t[k])
  {
    SeqUtil.FirstIndex(c => !IsUrlChar(c), t)
  }

  /**
   * Ok exactly when every char of the trimmed input is accepted; otherwise the first
   * rejected char, in scan order.
   */
  function ValidateAcceptedUrlChars(u: CharData, s: seq<char>): (r: Result<(), UrlError>)
    ensures r.Ok? <==> AllUrlChars(Trim(u, s))
    ensures r.Err? ==> exists i :: (0 <= i < |Trim(u, s)| && Trim(u, s)[i] == r.error.c && !IsUrlChar(r.error.c)
      && forall j :: 0 <= j < i ==> IsUrlChar(Trim(u, s)[j]))
  {
    var t := Trim(u, s);
    var k := FirstRejected(t);
    if k < |t| then Err(InvalidChar(t[k])) else Ok(())
  }

  /** Empty and all-whitespace inputs are accepted. */
  lemma BlankAccepted(u: CharData, s: seq<char>)
    requires AllSpace(u, s)
    ensures ValidateAcceptedUrlChars(u, s).Ok?
  {
    TrimEmptyIff(u, s);
  }

  /** Surrounding whitespace is ignored. */
  lemma SurroundingSpaceIgnored(u: CharData, a: seq<char>, s: seq<char>, b: seq<char>)
    requires AllSpace(u, a) && AllSpace(u, b)
    requires s != [] && !u.isWhitespace(s[0]) && !u.isWhitespace(s[|s| - 1])
    ensures ValidateAcceptedUrlChars(u, a + s + b) == ValidateAcceptedUrlChars(u, s)
  {
    TrimSurrounded(u, a, s, b);
    TrimNoSpaceAtEnds(u, s);
  }

  /** A space left inside the trimmed input, or any non-ASCII char such as 'é', is rejected. */
  lemma SpaceOrNonAsciiRejected(u: CharData, s: seq<char>, i: nat)
    requires i < |Trim(u, s)| && (Trim(u, s)[i] == ' ' || !IsAscii(Trim(u, s)[i]))
    ensures ValidateAcceptedUrlChars(u, s).Err?
  {
    assert !IsUrlChar(Trim(u, s)[i]);
  }

  lemma AllUrlCharsAppend(a: seq<char>, b: seq<char>)
    requires AllUrlChars(a) && AllUrlChars(b)
    ensures AllUrlChars(a + b)
  {
    forall i | 0 <= i < |a + b| ensures IsUrlChar((a + b)[i]) {
      if i >= |a| { assert (a + b)[i] == b[i - |a|]; }
    }
  }

  /** The first half of the test URL, in two pieces, holds only accepted chars. */
  lemma ExampleUrlHead()
    ensures AllUrlChars("http://est.jon/") && AllUrlChars("v?q=param&")
  {
  }

  /** The second half of the test URL, in two pieces, holds only accepted chars. */
  lemma ExampleUrlTail()
    ensures AllUrlChars("other=param%") && AllUrlChars("20#test=123")
  {
  }

  /** Every char of the test URL is accepted. */
  lemma ExampleUrlChars()
    ensures AllUrlChars("http://est.jon/v?q=param&other=param%20#test=123")
    ensures "http://est.jon/v?q=param&other=param%20#test=123"[0] == 'h'
    ensures "http://est.jon/v?q=param&other=param%20#test=123"[47] == '3'
  {
    var p, q, r, t := "http://est.jon/", "v?q=param&", "other=param%", "20#test=123";
    assert "http://est.jon/v?q=param&other=param%20#test=123" == p + q + (r + t);
    ExampleUrlHead();
    ExampleUrlTail();
    AllUrlCharsAppend(p, q);
    AllUrlCharsAppend(r, t);
    AllUrlCharsAppend(p + q, r + t);
  }

  /** The test URL is accepted. */
  lemma ExampleUrl(u: CharData)
    requires AsciiConforming(u)
    ensures ValidateAcceptedUrlChars(u, "http://est.jon/v?q=param&other=param%20#test=123").Ok?
  {
    var s := "http://est.jon/v?q=param&other=param%20#test=123";
    ExampleUrlChars();
    assert |s| == 48 && !u.isWhitespace(s[0]) && !u.isWhitespace(s[47]);
    TrimNoSpaceAtEnds(u, s);
  }
}

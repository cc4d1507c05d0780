/** Removal of the control chars that are not common text formatting. */
module Sanitizing {
  import SeqUtil
  import opened Cows

  /** A char is kept when it is not a C0 control char, or is BEL, BS, VT, FF, LF, CR or TAB. */
  predicate IsValidChar(c: char) {
    c as int >= 32 || c == '\U{7}' || c == '\U{8}' || c == '\U{B}' || c == '\U{C}' || c == '\n' || c == '\r' || c == '\t'
  }

  predicate AllValid(s: seq<char>) {
    forall i :: 0 <= i < |s| ==> IsValidChar(s[i])
  }

  /** `sanitize`: the input itself, borrowed, when all its chars are valid; otherwise the valid chars, owned. */
  function Sanitize(s: seq<char>): Cow {
    if AllValid(s) then Borrowed(s) else Owned(SeqUtil.Filter(IsValidChar, s))
  }

  /**
   * Whichever branch is taken, the output is the input with the invalid chars removed
   * and the others in order; it is borrowed, and then equal to the input, exactly when
   * nothing had to be removed.
   */
  lemma SanitizeRemovesInvalid(s: seq<char>)
    ensures Sanitize(s).s == SeqUtil.Filter(IsValidChar, s)
    ensures Sanitize(s).Borrowed? <==> |Sanitize(s).s| == |s|
    ensures Sanitize(s).Borrowed? ==> Sanitize(s).s == s
    ensures AllValid(Sanitize(s).s)
  {
    SeqUtil.FilterShorterIffRejects(IsValidChar, s);
    if AllValid(s) {
      SeqUtil.FilterAllKept(IsValidChar, s);
    }
  }

  /** Sanitizing a sanitized string borrows it unchanged. */
  lemma SanitizeIdempotent(s: seq<char>)
    ensures Sanitize(Sanitize(s).s) == Borrowed(Sanitize(s).s)
  {
    SanitizeRemovesInvalid(s);
  }

  /** The tests: SUB (0x1A) and NUL are invalid; space, digits, letters, backslash, LF, CR, TAB, 'à', 'é' are valid. */
  lemma ValidCharExamples()
    ensures !IsValidChar('\U{1A}') && !IsValidChar('\0')
    ensures IsValidChar(' ') && IsValidChar('2') && IsValidChar('A') && IsValidChar('\\') && IsValidChar('a')
    ensures IsValidChar('\n') && IsValidChar('\r') && IsValidChar('\t') && IsValidChar('à') && IsValidChar('é')
  {
  }

  /** The tests: "ab" and " Ab31_ " come back unchanged. */
  lemma SanitizeExamples()
    ensures Sanitize("ab") == Borrowed("ab")
    ensures Sanitize(" Ab31_ ") == Borrowed(" Ab31_ ")
  {
    assert AllValid(" Ab31_ ");
  }
}

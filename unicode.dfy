/**
 * The Unicode character data the crate takes from Rust's standard library and from
 * the `unicode_normalization` and `unidecode` crates. None of it is modelled: a
 * `CharData` value stands for one (unknown) version of those tables, and every
 * operation that needs them receives it as a parameter. `AsciiConforming` states the
 * facts about ASCII that those tables guarantee; only examples rely on it.
 */
module Unicode {

  datatype CharData = CharData(
    toLower: char -> seq<char>,        // char::to_lowercase (one to many)
    toUpper: char -> seq<char>,        // char::to_uppercase (one to many)
    lowerStr: seq<char> -> seq<char>,  // str::to_lowercase (context-sensitive final sigma)
    isNumeric: char -> bool,           // char::is_numeric
    isAlphanumeric: char -> bool,      // char::is_alphanumeric
    isWhitespace: char -> bool,        // char::is_whitespace, used by str::trim
    isControl: char -> bool,           // char::is_control
    nfd: seq<char> -> seq<char>,       // canonical decomposition (Unicode Standard Annex #15)
    unidecode: char -> seq<char>       // unidecode::unidecode_char
  )

  predicate IsAscii(c: char) {
    c as int < 0x80
  }

  predicate AllAscii(s: seq<char>) {
    forall i :: 0 <= i < |s| ==> IsAscii(s[i])
  }

  predicate IsAsciiDigit(c: char) {
    '0' <= c <= '9'
  }

  predicate IsAsciiUpper(c: char) {
    'A' <= c <= 'Z'
  }

  predicate IsAsciiLower(c: char) {
    'a' <= c <= 'z'
  }

  /** char::is_ascii_alphanumeric */
  predicate IsAsciiAlphanumeric(c: char) {
    IsAsciiDigit(c) || IsAsciiUpper(c) || IsAsciiLower(c)
  }

  function AsciiToLower(c: char): (r: char)
    ensures IsAscii(c) ==> IsAscii(r)
    ensures IsAsciiUpper(c) ==> r as int == c as int + 32
    ensures !IsAsciiUpper(c) ==> r == c
  {
    if IsAsciiUpper(c) then (c as int + 32) as char else c
  }

  function AsciiToUpper(c: char): (r: char)
    ensures IsAscii(c) ==> IsAscii(r)
    ensures IsAsciiLower(c) ==> r as int == c as int - 32
    ensures !IsAsciiLower(c) ==> r == c
  {
    if IsAsciiLower(c) then (c as int - 32) as char else c
  }

  function AsciiLowerStr(s: seq<char>): (r: seq<char>)
    ensures |r| == |s|
    ensures forall i :: 0 <= i < |s| ==> r[i] == AsciiToLower(s[i])
  {
    if s == [] then [] else [AsciiToLower(s[0])] + AsciiLowerStr(s[1..])
  }

  /** White_Space characters of the ASCII range. */
  predicate IsAsciiWhitespace(c: char) {
    c == ' ' || c == '\t' || c == '\n' || c == '\r' || c == '\U{B}' || c == '\U{C}'
  }

  /** What every Unicode version says about ASCII characters. */
  ghost predicate AsciiConforming(u: CharData) {
    && (forall c {:trigger u.toLower(c)} :: IsAscii(c) ==> u.toLower(c) == [AsciiToLower(c)])
    && (forall c {:trigger u.toUpper(c)} :: IsAscii(c) ==> u.toUpper(c) == [AsciiToUpper(c)])
    && (forall s {:trigger u.lowerStr(s)} :: AllAscii(s) ==> u.lowerStr(s) == AsciiLowerStr(s))
    && (forall c {:trigger u.isNumeric(c)} :: IsAscii(c) ==> (u.isNumeric(c) <==> IsAsciiDigit(c)))
    && (forall c {:trigger u.isAlphanumeric(c)} :: IsAscii(c) ==> (u.isAlphanumeric(c) <==> IsAsciiAlphanumeric(c)))
    && (forall c {:trigger u.isWhitespace(c)} :: IsAscii(c) ==> (u.isWhitespace(c) <==> IsAsciiWhitespace(c)))
    && (forall c {:trigger u.isControl(c)} :: IsAscii(c) ==> (u.isControl(c) <==> c as int < 32 || c as int == 127))
    && (forall s {:trigger u.nfd(s)} :: AllAscii(s) ==> u.nfd(s) == s)
    && (forall c {:trigger u.unidecode(c)} :: IsAscii(c) ==> u.unidecode(c) == [c])
  }
}

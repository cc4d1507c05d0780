/**
 * `NoneIfEmpty`: turn an empty (or, for the `trim` variant, blank) string into `None`
 * and anything else into `Some` of the value itself, untouched. Every implementation
 * decides on the string content it dereferences to, so one generic definition takes
 * that content as a parameter.
 */
module NoneIfEmpty {
  import opened Wrappers
  import opened Unicode
  import opened Trimming
  import opened Cows
  import FormStrs

  /** `none_if_empty`: None exactly for empty content, otherwise the untouched value. */
  function NoneIfEmpty<T>(content: T -> seq<char>, x: T): (r: Option<T>)
    ensures r.None? <==> |content(x)| == 0
    ensures r.Some? ==> r.value == x
  {
    if content(x) == [] then None else Some(x)
  }

  /** `none_if_trim_empty`: None exactly when every char is whitespace, otherwise the untrimmed value. */
  function NoneIfTrimEmpty<T>(u: CharData, content: T -> seq<char>, x: T): (r: Option<T>)
    ensures r.None? <==> AllSpace(u, content(x))
    ensures r.Some? ==> r.value == x
  {
    TrimEmptyIff(u, content(x));
    if Trim(u, content(x)) == [] then None else Some(x)
  }

  /** `Option<T>::none_if_empty`: None stays None; `Some(x)` gives what `x` gives. */
  function OptionNoneIfEmpty<T>(content: T -> seq<char>, o: Option<T>): (r: Option<T>)
    ensures r.Some? <==> o.Some? && |content(o.value)| > 0
    ensures r.Some? ==> r == o
  {
    match o
    case None => None
    case Some(x) => NoneIfEmpty(content, x)
  }

  /** `Option<T>::none_if_trim_empty`: None stays None; `Some(x)` gives what `x` gives. */
  function OptionNoneIfTrimEmpty<T>(u: CharData, content: T -> seq<char>, o: Option<T>): (r: Option<T>)
    ensures r.Some? <==> o.Some? && !AllSpace(u, content(o.value))
    ensures r.Some? ==> r == o
  {
    match o
    case None => None
    case Some(x) => NoneIfTrimEmpty(u, content, x)
  }

  /** An empty value is blank too: when `none_if_empty` gives None, so does `none_if_trim_empty`. */
  lemma EmptyIsTrimEmpty<T>(u: CharData, content: T -> seq<char>, x: T)
    requires NoneIfEmpty(content, x).None?
    ensures NoneIfTrimEmpty(u, content, x).None?
  {
  }

  /** The decision depends on the content alone, whatever the type that holds it. */
  lemma DecidedByContent<T, S>(u: CharData, f: T -> seq<char>, x: T, g: S -> seq<char>, y: S)
    requires f(x) == g(y)
    ensures NoneIfEmpty(f, x).None? == NoneIfEmpty(g, y).None?
    ensures NoneIfTrimEmpty(u, f, x).None? == NoneIfTrimEmpty(u, g, y).None?
  {
  }

  /** The content of `&str`, `String`, `Box<str>`, `&T` and `&mut T`: the chars themselves. */
  function Str(s: seq<char>): seq<char> { s }

  /** The content of a `Cow<str>`, borrowed or owned. */
  function CowStr(c: Cow): seq<char> { c.s }

  /** The content of a `FormStr`: its stored, already formatted string. */
  function FormStrContent(f: FormStrs.FormStr): seq<char> { f.value }

  /** A borrowed and an owned `Cow` with the same content, and a plain string, are treated alike. */
  lemma CowAndStrAgree(u: CharData, s: seq<char>)
    ensures NoneIfEmpty(CowStr, Borrowed(s)).None? == NoneIfEmpty(CowStr, Owned(s)).None? == NoneIfEmpty(Str, s).None?
    ensures NoneIfTrimEmpty(u, CowStr, Borrowed(s)).None? == NoneIfTrimEmpty(u, CowStr, Owned(s)).None?
      == NoneIfTrimEmpty(u, Str, s).None?
  {
    DecidedByContent(u, CowStr, Borrowed(s), Str, s);
    DecidedByContent(u, CowStr, Owned(s), Str, s);
  }

  /** Examples: "" and "  " are None for the trim variant, "  " is kept by the plain one, " a " is kept untrimmed. */
  lemma Examples(u: CharData)
    requires AsciiConforming(u)
    ensures NoneIfEmpty(Str, "") == None
    ensures NoneIfEmpty(Str, "  ") == Some("  ")
    ensures NoneIfTrimEmpty(u, Str, "  ") == None
    ensures NoneIfTrimEmpty(u, Str, " a ") == Some(" a ")
    ensures OptionNoneIfTrimEmpty(u, Str, None) == None
  {
    assert u.isWhitespace(' ') && !u.isWhitespace('a');
    assert !AllSpace(u, " a ") by { assert " a "[1] == 'a'; }
  }
}

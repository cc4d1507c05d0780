/**
 * `FormStr<F>`: a string stored only after a format `F` accepted (and possibly rewrote)
 * it. A format is a composition of the unit format, `Filename`, `SubPath` and the
 * combinators `Lower`, `Upper`, `MaxLen<N>`, `MinLen<N>` and `Trim` around an inner format;
 * every combinator runs its inner format first and passes an inner error through.
 * Formats work on a copy-on-write string that is either borrowed from the caller or owned.
 */
module FormStrs {
  import opened Wrappers
  import opened Unicode
  import SeqUtil
  import Trimming
  import Utf8
  import opened Order
  import opened Fs
  import opened Cows

  /** `FormatErr`: `Fs(FsError)`, `MaxLen(usize)` and `MinLen`. */
  datatype FormatErr = FsErr(e: FsError) | MaxLenErr(n: nat) | MinLenErr

  /** The format type parameter `F`, as a value: `()` is `Unit`, the const generic `N` is `n`. */
  datatype Format =
    | Unit
    | Filename
    | SubPath
    | Lower(inner: Format)
    | Upper(inner: Format)
    | MaxLen(n: nat, inner: Format)
    | MinLen(n: nat, inner: Format)
    | Trim(inner: Format)

  /** The `Format::format` of each format: a combinator runs its inner format, then its own step. */
  function Apply(f: Format, u: CharData, s: Cow): Result<Cow, FormatErr> {
    match f
    case Unit => Ok(s)
    case Filename => FilenameStep(u, s)
    case SubPath => SubPathStep(u, s)
    case Lower(inner) => LowerStep(u, Apply(inner, u, s))
    case Upper(inner) => UpperStep(u, Apply(inner, u, s))
    case MaxLen(n, inner) => MaxLenStep(n, Apply(inner, u, s))
    case MinLen(n, inner) => MinLenStep(n, Apply(inner, u, s))
    case Trim(inner) => TrimStep(u, Apply(inner, u, s))
  }

  /**
   * `Filename`: `validate_filename`; a borrowed input stays borrowed, an owned one is kept
   * when the byte length did not change and replaced by the trimmed copy otherwise.
   */
  function FilenameStep(u: CharData, s: Cow): Result<Cow, FormatErr> {
    match ValidateFilename(u, s.s)
    case Err(e) => Err(FsErr(e))
    case Ok(v) =>
      if s.Borrowed? then Ok(Borrowed(v))
      else Ok(Owned(if Utf8.Length(v) == Utf8.Length(s.s) then s.s else v))
  }

  /** `SubPath`: `format_sub_path`, always owned. */
  function SubPathStep(u: CharData, s: Cow): Result<Cow, FormatErr> {
    match ValidateSubPath(u, s.s)
    case Ok(_) => Ok(Owned(JoinTrimmed(u, Split(s.s))))
    case Err(e) => Err(FsErr(e))
  }

  /** `Lower`: `str::to_lowercase` of the inner result, owned. */
  function LowerStep(u: CharData, r: Result<Cow, FormatErr>): Result<Cow, FormatErr> {
    match r
    case Ok(c) => Ok(Owned(u.lowerStr(c.s)))
    case Err(e) => Err(e)
  }

  /** `Upper`: `str::to_uppercase`, the per-char uppercase of the inner result, owned. */
  function UpperStep(u: CharData, r: Result<Cow, FormatErr>): Result<Cow, FormatErr> {
    match r
    case Ok(c) => Ok(Owned(SeqUtil.FlatMap(u.toUpper, c.s)))
    case Err(e) => Err(e)
  }

  /** `MaxLen<N>`: a byte length below N passes at once, else the chars are counted up to N + 1. */
  function MaxLenStep(n: nat, r: Result<Cow, FormatErr>): Result<Cow, FormatErr> {
    match r
    case Ok(c) =>
      if Utf8.Length(c.s) < n then Ok(c)
      else if TakeCount(c.s, n + 1) > n then Err(MaxLenErr(n))
      else Ok(c)
    case Err(e) => Err(e)
  }

  /** `MinLen<N>`: the chars are counted up to N. */
  function MinLenStep(n: nat, r: Result<Cow, FormatErr>): Result<Cow, FormatErr> {
    match r
    case Ok(c) => if TakeCount(c.s, n) >= n then Ok(c) else Err(MinLenErr)
    case Err(e) => Err(e)
  }

  /** `Trim`: trims the inner result, borrowed staying borrowed and owned staying owned. */
  function TrimStep(u: CharData, r: Result<Cow, FormatErr>): Result<Cow, FormatErr> {
    match r
    case Ok(Borrowed(x)) => Ok(Borrowed(Trimming.Trim(u, x)))
    case Ok(Owned(x)) => Ok(Owned(Trimming.Trim(u, x)))
    case Err(e) => Err(e)
  }

  /** `s.chars().take(k).count()`. */
  function TakeCount(s: seq<char>, k: nat): (c: nat)
    ensures c == if |s| < k then |s| else k
  {
    |s[..if |s| < k then |s| else k]|
  }

  /** The formats that have an inner format, which runs first. */
  predicate IsCombinator(f: Format) {
    f.Lower? || f.Upper? || f.MaxLen? || f.MinLen? || f.Trim?
  }

  /** The unit format is the identity and never fails. */
  lemma UnitIdentity(u: CharData, s: Cow)
    ensures Apply(Unit, u, s).Ok? && Apply(Unit, u, s).value.s == s.s
  {
  }

  /** An inner error is passed through unchanged by every combinator. */
  lemma InnerErrorShortCircuits(f: Format, u: CharData, s: Cow)
    requires IsCombinator(f) && Apply(f.inner, u, s).Err?
    ensures Apply(f, u, s) == Apply(f.inner, u, s)
  {
  }

  /**
   * `MaxLen<N>` accepts exactly the inner results of at most N chars, unchanged, and
   * otherwise reports `MaxLen(N)`: the byte-length fast path agrees with the char count,
   * since a string never has more chars than bytes. An inner error passes through.
   */
  lemma MaxLenAccepts(n: nat, r: Result<Cow, FormatErr>)
    ensures r.Ok? ==> MaxLenStep(n, r) == if |r.value.s| <= n then r else Err(MaxLenErr(n))
    ensures r.Err? ==> MaxLenStep(n, r) == r
  {
    if r.Ok? {
      Utf8.CharCountAtMostLength(r.value.s);
    }
  }

  /** `MinLen<N>` accepts exactly the inner results of at least N chars, unchanged, and otherwise reports `MinLen`. */
  lemma MinLenAccepts(n: nat, r: Result<Cow, FormatErr>)
    ensures r.Ok? ==> MinLenStep(n, r) == if |r.value.s| >= n then r else Err(MinLenErr)
    ensures r.Err? ==> MinLenStep(n, r) == r
  {
  }

  /** `Trim` never fails itself; it keeps the inner result's kind and strips its surrounding whitespace. */
  lemma TrimFormat(u: CharData, r: Result<Cow, FormatErr>)
    requires r.Ok?
    ensures TrimStep(u, r).Ok?
    ensures TrimStep(u, r).value.s == Trimming.Trim(u, r.value.s)
    ensures TrimStep(u, r).value.Owned? == r.value.Owned?
    ensures var t := TrimStep(u, r).value.s;
      t != [] ==> !u.isWhitespace(t[0]) && !u.isWhitespace(t[|t| - 1])
  {
  }

  /**
   * `Filename` succeeds exactly when `validate_filename` does, with the trimmed name; an
   * owned input that needed no trimming is kept, which is the same content.
   */
  lemma FilenameFormat(u: CharData, s: Cow)
    ensures FilenameStep(u, s).Ok? <==> ValidateFilename(u, s.s).Ok?
    ensures FilenameStep(u, s).Ok? ==> FilenameStep(u, s).value.s == Trimming.Trim(u, s.s)
    ensures FilenameStep(u, s).Err? ==> FilenameStep(u, s).error == FsErr(ValidateFilename(u, s.s).error)
  {
    Trimming.TrimSameLengthIffUnchanged(u, s.s);
  }

  /** `SubPath` succeeds exactly when `format_sub_path` does, with its output. */
  lemma SubPathFormat(u: CharData, s: Cow)
    ensures SubPathStep(u, s).Ok? <==> ValidateSubPath(u, s.s).Ok?
    ensures SubPathStep(u, s).Ok? ==> SubPathStep(u, s).value == Owned(JoinTrimmed(u, Split(s.s)))
    ensures SubPathStep(u, s).Err? ==> SubPathStep(u, s).error == FsErr(ValidateSubPath(u, s.s).error)
  {
  }

  /** On ASCII text, the per-char uppercase of `to_uppercase` maps each char to its ASCII uppercase, one for one. */
  lemma {:induction false} UpperAscii(u: CharData, s: seq<char>)
    requires AsciiConforming(u) && AllAscii(s)
    ensures |SeqUtil.FlatMap(u.toUpper, s)| == |s|
    ensures forall i :: 0 <= i < |s| ==> SeqUtil.FlatMap(u.toUpper, s)[i] == AsciiToUpper(s[i])
  {
    if s != [] {
      UpperAscii(u, s[1..]);
      var rest := SeqUtil.FlatMap(u.toUpper, s[1..]);
      assert SeqUtil.FlatMap(u.toUpper, s) == [AsciiToUpper(s[0])] + rest;
      forall i | 0 < i < |s| ensures SeqUtil.FlatMap(u.toUpper, s)[i] == AsciiToUpper(s[i]) {
        assert s[1..][i - 1] == s[i];
      }
    }
  }

  /**
   * `Lower` and `Upper` never fail themselves and always own their result; on ASCII
   * text they change the case of each char and nothing else.
   */
  lemma CaseFormats(u: CharData, r: Result<Cow, FormatErr>)
    requires r.Ok?
    ensures LowerStep(u, r).Ok? && LowerStep(u, r).value.Owned?
    ensures UpperStep(u, r).Ok? && UpperStep(u, r).value.Owned?
    ensures AsciiConforming(u) && AllAscii(r.value.s) ==>
      && LowerStep(u, r).value.s == AsciiLowerStr(r.value.s)
      && |UpperStep(u, r).value.s| == |r.value.s|
      && forall i :: 0 <= i < |r.value.s| ==> UpperStep(u, r).value.s[i] == AsciiToUpper(r.value.s[i])
  {
    if AsciiConforming(u) && AllAscii(r.value.s) {
      UpperAscii(u, r.value.s);
    }
  }

  /** No format turns an owned string back into a borrowed one. */
  lemma {:induction false} OwnedStaysOwned(f: Format, u: CharData, s: Cow)
    requires s.Owned? && Apply(f, u, s).Ok?
    ensures Apply(f, u, s).value.Owned?
  {
    match f
    case Unit =>
    case Filename =>
    case SubPath =>
    case Lower(inner) =>
    case Upper(inner) =>
    case MaxLen(n, inner) => OwnedStaysOwned(inner, u, s);
    case MinLen(n, inner) => OwnedStaysOwned(inner, u, s);
    case Trim(inner) => OwnedStaysOwned(inner, u, s);
  }

  /** A `FormStr<F>`: the formatted string and the format it satisfies. */
  datatype FormStr = FormStr(value: seq<char>, format: Format)

  /** `with_format`: format the borrowed input and store the result, or return the format's error. */
  function WithFormat(f: Format, u: CharData, s: seq<char>): (r: Result<FormStr, FormatErr>)
    ensures Apply(f, u, Borrowed(s)).Ok? ==> r == Ok(FormStr(Apply(f, u, Borrowed(s)).value.s, f))
    ensures Apply(f, u, Borrowed(s)).Err? ==> r == Err(Apply(f, u, Borrowed(s)).error)
  {
    match Apply(f, u, Borrowed(s))
    case Ok(c) => Ok(FormStr(c.s, f))
    case Err(e) => Err(e)
  }

  /** `new`: `with_format` with the format's default value, which for a format is the format itself. */
  function New(f: Format, u: CharData, s: seq<char>): Result<FormStr, FormatErr> {
    WithFormat(f, u, s)
  }

  /** `new_opt`: `new(..).ok()`. */
  function NewOpt(f: Format, u: CharData, s: seq<char>): Option<FormStr> {
    New(f, u, s).ToOption()
  }

  /** A value made by `new_opt` is present exactly when `new` succeeds, and is the same value. */
  lemma NewOptAgrees(f: Format, u: CharData, s: seq<char>)
    ensures NewOpt(f, u, s).Some? <==> New(f, u, s).Ok?
    ensures NewOpt(f, u, s).Some? ==> NewOpt(f, u, s).value == New(f, u, s).value
  {
  }

  /** `PartialEq for FormStr`: the stored strings are equal. */
  predicate Eq(a: FormStr, b: FormStr) {
    a.value == b.value
  }

  /** `Ord for FormStr`: the order of the stored strings. */
  function Cmp(a: FormStr, b: FormStr): Ordering {
    SeqCmp(a.value, b.value)
  }

  /** `Hash for FormStr`: the chars fed to the hasher. */
  function HashInput(a: FormStr): seq<char> {
    a.value
  }

  /** Equality is `cmp == Equal`, and equal values hash alike. */
  lemma EqIffCmpEqual(a: FormStr, b: FormStr)
    ensures Eq(a, b) <==> Cmp(a, b) == Equal
    ensures Eq(a, b) ==> HashInput(a) == HashInput(b)
  {
    SeqCmpEqualIff(a.value, b.value);
  }

  /** Swapping the operands reverses the order. */
  lemma CmpAntisymmetric(a: FormStr, b: FormStr)
    ensures Cmp(b, a) == Cmp(a, b).Reverse()
  {
    SeqCmpAntisymmetric(a.value, b.value);
  }

  /** Equality, ordering and hashing see only the stored string, never the format. */
  lemma FormatIgnored(a: FormStr, b: FormStr, f: Format, g: Format)
    ensures Eq(a, b) == Eq(a.(format := f), b.(format := g))
    ensures Cmp(a, b) == Cmp(a.(format := f), b.(format := g))
    ensures HashInput(a) == HashInput(a.(format := f))
  {
  }

  /** One leading space before a string without surrounding whitespace is all that trimming removes. */
  lemma TrimOneSpace(u: CharData, x: seq<char>)
    requires u.isWhitespace(' ') && x != [] && !u.isWhitespace(x[0]) && !u.isWhitespace(x[|x| - 1])
    ensures Trimming.Trim(u, [' '] + x) == x
  {
    var s := [' '] + x;
    assert s[..1] == [' '] && s[1] == x[0] && s[|s| - 1] == x[|x| - 1] && s[1..] == x;
    Trimming.TrimLeadingSpace(u, s, 1);
  }

  /** `MaxLen<N, Trim<()>>` on one space before a string without surrounding whitespace. */
  lemma BoundedTrim(u: CharData, n: nat, x: seq<char>)
    requires u.isWhitespace(' ') && x != [] && !u.isWhitespace(x[0]) && !u.isWhitespace(x[|x| - 1])
    ensures Apply(MaxLen(n, Trim(Unit)), u, Borrowed([' '] + x)) ==
      if |x| <= n then Ok(Borrowed(x)) else Err(MaxLenErr(n))
  {
    TrimOneSpace(u, x);
    assert Apply(Trim(Unit), u, Borrowed([' '] + x)) == Ok(Borrowed(x));
    MaxLenAccepts(n, Ok(Borrowed(x)));
  }

  /** `Lower` of a format that accepted `x` owns the lowercase of `x`. */
  lemma LowerOf(f: Format, u: CharData, s: Cow, x: seq<char>)
    requires Apply(f, u, s).Ok? && Apply(f, u, s).value.s == x
    ensures Apply(Lower(f), u, s) == Ok(Owned(u.lowerStr(x)))
  {
  }

  /** `Lower<MaxLen<3, Trim<()>>>`: "Hello" is too long once trimmed. */
  lemma TooLongExample(u: CharData)
    requires AsciiConforming(u)
    ensures New(Lower(MaxLen(3, Trim(Unit))), u, " Hello") == Err(MaxLenErr(3))
  {
    assert u.isWhitespace(' ') && !u.isWhitespace('H') && !u.isWhitespace('o');
    BoundedTrim(u, 3, "Hello");
    assert [' '] + "Hello" == " Hello";
    InnerErrorShortCircuits(Lower(MaxLen(3, Trim(Unit))), u, Borrowed(" Hello"));
  }

  /** `Lower<MaxLen<3, Trim<()>>>`: " Hel" is stored as "hel". */
  lemma LowerTrimmedExample(u: CharData)
    requires AsciiConforming(u)
    ensures New(Lower(MaxLen(3, Trim(Unit))), u, " Hel") == Ok(FormStr("hel", Lower(MaxLen(3, Trim(Unit)))))
  {
    assert u.isWhitespace(' ') && !u.isWhitespace('H') && !u.isWhitespace('l');
    BoundedTrim(u, 3, "Hel");
    assert [' '] + "Hel" == " Hel";
    LowerOf(MaxLen(3, Trim(Unit)), u, Borrowed(" Hel"), "Hel");
    assert AllAscii("Hel");
    assert AsciiLowerStr("Hel") == "hel";
  }

  /** `Lower<MinLen<1, MaxLen<3, Trim<()>>>>`: " " is empty once trimmed, too short. */
  lemma TooShortExample(u: CharData)
    requires AsciiConforming(u)
    ensures New(Lower(MinLen(1, MaxLen(3, Trim(Unit)))), u, " ") == Err(MinLenErr)
  {
    assert IsAscii(" "[0]);
    Trimming.TrimEmptyIff(u, " ");
    assert Apply(Trim(Unit), u, Borrowed(" ")) == Ok(Borrowed([]));
    MaxLenAccepts(3, Ok(Borrowed([])));
    assert Apply(MaxLen(3, Trim(Unit)), u, Borrowed(" ")) == Ok(Borrowed([]));
    MinLenAccepts(1, Ok(Borrowed([])));
    InnerErrorShortCircuits(Lower(MinLen(1, MaxLen(3, Trim(Unit)))), u, Borrowed(" "));
  }

  /** `Lower<MinLen<1, MaxLen<3, Trim<()>>>>`: " ABC" is stored as "abc". */
  lemma BoundedLowerExample(u: CharData)
    requires AsciiConforming(u)
    ensures New(Lower(MinLen(1, MaxLen(3, Trim(Unit)))), u, " ABC") == Ok(FormStr("abc", Lower(MinLen(1, MaxLen(3, Trim(Unit))))))
  {
    assert u.isWhitespace(' ') && !u.isWhitespace('A') && !u.isWhitespace('C');
    BoundedTrim(u, 3, "ABC");
    assert [' '] + "ABC" == " ABC";
    MinLenAccepts(1, Ok(Borrowed("ABC")));
    LowerOf(MinLen(1, MaxLen(3, Trim(Unit))), u, Borrowed(" ABC"), "ABC");
    assert AllAscii("ABC");
    assert AsciiLowerStr("ABC") == "abc";
  }

  /** `Lower<()>`: "Hello" becomes "hello". */
  lemma LowerExample(u: CharData)
    requires AsciiConforming(u)
    ensures New(Lower(Unit), u, "Hello") == Ok(FormStr("hello", Lower(Unit)))
  {
    LowerOf(Unit, u, Borrowed("Hello"), "Hello");
    assert AllAscii("Hello");
    assert AsciiLowerStr("Hello") == "hello";
  }

  /** `Upper<()>`: "Hello" becomes "HELLO". */
  lemma UpperExample(u: CharData)
    requires AsciiConforming(u)
    ensures New(Upper(Unit), u, "Hello") == Ok(FormStr("HELLO", Upper(Unit)))
  {
    var f := u.toUpper;
    assert f('o') == ['O'] && f('l') == ['L'] && f('e') == ['E'] && f('H') == ['H'];
    assert SeqUtil.FlatMap(f, "o") == "O" by { assert "o"[1..] == []; }
    assert SeqUtil.FlatMap(f, "lo") == "LO" by { assert "lo"[1..] == "o"; }
    assert SeqUtil.FlatMap(f, "llo") == "LLO" by { assert "llo"[1..] == "lo"; }
    assert SeqUtil.FlatMap(f, "ello") == "ELLO" by { assert "ello"[1..] == "llo"; }
    assert SeqUtil.FlatMap(f, "Hello") == "HELLO" by { assert "Hello"[1..] == "ello"; }
    assert Apply(Upper(Unit), u, Borrowed("Hello")) == Ok(Owned("HELLO"));
  }
}
